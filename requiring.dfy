/**
 * The rule registry: named rules bound to fields of a record type, the
 * per-rule aggregation of validator failures, and the non-empty check.
 *
 * Field identity is resolved from a pointer into a template record: the
 * pointer's offset from the template's address is matched exactly against
 * the offsets of the record type's visible fields. The record type is given
 * here as its table of visible fields and a record instance as a map from a
 * field's index path to the field's value.
 */
module Requiring {
  import opened Wrappers
  import opened Utf8
  import LengthFamily

  // ---------------------------------------------------------------- the non-empty check

  /** The violation of the non-empty check; Min and Max are plain data. */
  datatype RangeMinViolation = RangeMinViolation(min: int, max: int, value: GoString) {

    /** Always the fixed text, whatever Min, Max and Value hold. */
    function Error(): (r: string)
      ensures r == "requires"
    {
      "requires"
    }
  }

  /** What a printer for the non-empty check would write for a violation. */
  type NotEmptyPrinter = RangeMinViolation -> string

  class NotEmptyValidator {
    var p: Option<NotEmptyPrinter>

    constructor ()
      ensures p.None?
    {
      p := None;
    }

    /** Stores the printer, or clears it when `q` is None (Go's nil). */
    method SetPrinter(q: Option<NotEmptyPrinter>)
      modifies this
      ensures p == q
    {
      p := q;
    }

    /** A violation with Min 1 exactly when `s` is the empty string. */
    function Validate(s: GoString): (r: Option<RangeMinViolation>)
      ensures r.Some? <==> s == []
      ensures r.Some? ==> r.value.min == 1 && r.value.max == 0 && r.value.value == s
    {
      if s == [] then Some(RangeMinViolation(1, 0, s)) else None
    }
  }

  // ---------------------------------------------------------------- validators and violations

  /** The validators a rule may hold. */
  datatype Validator =
    | MinLen(minLen: LengthFamily.MinLengthValidator)
    | MaxLen(maxLen: LengthFamily.MaxLengthValidator)
    | Len(len: LengthFamily.LengthValidator)
    | NotEmpty(notEmpty: NotEmptyValidator)
  {
    /**
     * Runs the validator on one value: it fails exactly when the wrapped
     * validator does, and a violation always carries that value.
     */
    function Validate(s: GoString): (r: Option<Violation>)
      ensures MinLen? ==> (r.Some? <==> RuneCount(s) < minLen.min)
      ensures MaxLen? ==> (r.Some? <==> RuneCount(s) > maxLen.max)
      ensures Len? ==> (r.None? <==> len.min <= RuneCount(s) <= len.max)
      ensures NotEmpty? ==> (r.Some? <==> s == [])
      ensures r.Some? ==> r.value.Value() == s
    {
      match this
      case MinLen(v) => (match v.Validate(s) case None => None case Some(e) => Some(MinLenViolated(e)))
      case MaxLen(v) => (match v.Validate(s) case None => None case Some(e) => Some(MaxLenViolated(e)))
      case Len(v) => (match v.Validate(s) case None => None case Some(e) => Some(LenViolated(e)))
      case NotEmpty(v) => (match v.Validate(s) case None => None case Some(e) => Some(RangeMinViolated(e)))
    }
  }

  /** The violations those validators produce. */
  datatype Violation =
    | MinLenViolated(minLen: LengthFamily.MinLengthViolation)
    | MaxLenViolated(maxLen: LengthFamily.MaxLengthViolation)
    | LenViolated(len: LengthFamily.LengthViolation)
    | RangeMinViolated(rangeMin: RangeMinViolation)
  {
    function Value(): GoString {
      match this
      case MinLenViolated(e) => e.value
      case MaxLenViolated(e) => e.value
      case LenViolated(e) => e.value
      case RangeMinViolated(e) => e.value
    }

    function Error(): string {
      match this
      case MinLenViolated(e) => e.Error()
      case MaxLenViolated(e) => e.Error()
      case LenViolated(e) => e.Error()
      case RangeMinViolated(e) => e.Error()
    }
  }

  /** One failure of one validator of a rule, wrapped with the rule's name. */
  datatype RuleError = RuleError(name: string, cause: Violation) {

    /** The quoted rule name and a space, then the wrapped violation's text. */
    function Error(): (r: string)
      ensures |r| == |name| + 3 + |cause.Error()|
      ensures r[..|name| + 3] == "'" + name + "' "
      ensures r[|name| + 3..] == cause.Error()
    {
      "'" + name + "' " + cause.Error()
    }
  }

  // ---------------------------------------------------------------- rules

  /**
   * What a rule named `name` with validators `vs` reports for value `v`:
   * one error per failing validator, in validator order.
   */
  function Collect(name: string, vs: seq<Validator>, v: GoString): (errs: seq<RuleError>)
    ensures |errs| <= |vs|
    ensures forall k :: 0 <= k < |errs| ==> errs[k].name == name && errs[k].cause.Value() == v
    decreases |vs|
  {
    if vs == [] then []
    else
      var init := Collect(name, vs[..|vs| - 1], v);
      match vs[|vs| - 1].Validate(v)
      case None => init
      case Some(e) => init + [RuleError(name, e)]
  }

  /** The positions of the validators in `vs` that reject `v`. */
  ghost function FailingPositions(vs: seq<Validator>, v: GoString): set<nat> {
    set i: nat | i < |vs| && vs[i].Validate(v).Some?
  }

  /** A rule reports nothing (Go's nil) exactly when every validator accepts. */
  lemma {:induction false} CollectEmptyIff(name: string, vs: seq<Validator>, v: GoString)
    ensures Collect(name, vs, v) == [] <==> forall i :: 0 <= i < |vs| ==> vs[i].Validate(v).None?
    decreases |vs|
  {
    if vs != [] {
      var n := |vs| - 1;
      CollectEmptyIff(name, vs[..n], v);
      assert forall i :: 0 <= i < n ==> vs[..n][i] == vs[i];
    }
  }

  /** Appending a validator adds its position to the failing ones exactly when it fails. */
  lemma FailingPositionsStep(vs: seq<Validator>, v: GoString)
    requires vs != []
    ensures |vs| - 1 !in FailingPositions(vs[..|vs| - 1], v)
    ensures FailingPositions(vs, v) ==
      FailingPositions(vs[..|vs| - 1], v) + (if vs[|vs| - 1].Validate(v).Some? then {|vs| - 1} else {})
  {
    var n := |vs| - 1;
    var prefix := vs[..n];
    forall i: nat | i < n
      ensures i in FailingPositions(vs, v) <==> i in FailingPositions(prefix, v)
    {
      assert prefix[i] == vs[i];
    }
  }

  /** There is one error per failing validator: no validator is skipped after a failure. */
  lemma {:induction false} CollectCount(name: string, vs: seq<Validator>, v: GoString)
    ensures |Collect(name, vs, v)| == |FailingPositions(vs, v)|
    decreases |vs|
  {
    if vs != [] {
      CollectCount(name, vs[..|vs| - 1], v);
      FailingPositionsStep(vs, v);
    }
  }

  /** Running two lists of validators one after the other reports both reports, in order. */
  lemma {:induction false} CollectAppend(name: string, vs1: seq<Validator>, vs2: seq<Validator>, v: GoString)
    ensures Collect(name, vs1 + vs2, v) == Collect(name, vs1, v) + Collect(name, vs2, v)
    decreases |vs2|
  {
    if vs2 != [] {
      var n := |vs2| - 1;
      assert (vs1 + vs2)[..|vs1 + vs2| - 1] == vs1 + vs2[..n];
      assert (vs1 + vs2)[|vs1 + vs2| - 1] == vs2[n];
      CollectAppend(name, vs1, vs2[..n], v);
    } else {
      assert vs1 + vs2 == vs1;
    }
  }

  /** An address, as Go's uintptr on a 64-bit platform: arithmetic wraps modulo 2^64. */
  type Uintptr = x: int | 0 <= x < 0x1_0000_0000_0000_0000

  /** A rule: its name, its validators, and the field it governs. */
  datatype Rule = Rule(name: string, validators: seq<Validator>, offset: Uintptr, index: seq<nat>) {

    /** Runs every validator on `v`, with no early exit, and collects the failures. */
    method Validate(v: GoString) returns (errs: seq<RuleError>)
      ensures errs == Collect(name, validators, v)
    {
      errs := [];
      for i := 0 to |validators|
        invariant errs == Collect(name, validators[..i], v)
      {
        assert validators[..i + 1][..i] == validators[..i];
        var err := validators[i].Validate(v);
        if err.Some? {
          errs := errs + [RuleError(name, err.value)];
        }
      }
      assert validators[..|validators|] == validators;
    }
  }

  // ---------------------------------------------------------------- field identity

  /** One visible field of a record type: its offset and its index path. */
  datatype Field = Field(offset: Uintptr, index: seq<nat>)

  /** A record instance: the value of each field, by index path. */
  type Record = map<seq<nat>, GoString>

  /** The argument of a registry's Validate: a record, or a pointer to one. */
  datatype Target = Value(rec: Record) | Pointer(to: Record) {
    function Deref(): Record {
      match this
      case Value(r) => r
      case Pointer(r) => r
    }
  }

  /** The offset of address `p` from the template's address `base`, in uintptr arithmetic. */
  function OffsetOf(base: Uintptr, p: Uintptr): (off: Uintptr)
    ensures base <= p ==> off == p - base
    ensures p < base ==> off == p - base + 0x1_0000_0000_0000_0000
  {
    (p - base) % 0x1_0000_0000_0000_0000
  }

  /** The position of the first field whose offset is exactly `off`, if any. */
  function FirstAt(fields: seq<Field>, off: Uintptr): (r: Option<nat>)
    ensures r.None? <==> forall j :: 0 <= j < |fields| ==> fields[j].offset != off
    ensures r.Some? ==> r.value < |fields| && fields[r.value].offset == off
    ensures r.Some? ==> forall j :: 0 <= j < r.value ==> fields[j].offset != off
    decreases |fields|
  {
    if fields == [] then None
    else if fields[0].offset == off then Some(0)
    else match FirstAt(fields[1..], off)
      case None => None
      case Some(k) => Some(k + 1)
  }

  /** Linear search for the field at `off`; no match is a panic with message "xxx". */
  method LookupStructField(fields: seq<Field>, off: Uintptr) returns (r: Result<Field, string>)
    ensures r.Success? <==> FirstAt(fields, off).Some?
    ensures r.Success? ==> r.value == fields[FirstAt(fields, off).value]
    ensures r.Failure? ==> r.error == "xxx"
  {
    for i := 0 to |fields|
      invariant forall j :: 0 <= j < i ==> fields[j].offset != off
    {
      if fields[i].offset == off {
        return Success(fields[i]);
      }
    }
    return Failure("xxx");
  }

  // ---------------------------------------------------------------- the registry

  /** The errors a rule reports for its field of record `rec`. */
  function RuleOutcome(r: Rule, rec: Record): seq<RuleError>
    requires r.index in rec
  {
    Collect(r.name, r.validators, rec[r.index])
  }

  /** A set of rules passes on a record exactly when every validator of every rule accepts its field. */
  lemma RulesPassIff(rules: map<string, Rule>, rec: Record)
    requires forall n :: n in rules ==> rules[n].index in rec
    ensures (forall n :: n in rules ==> RuleOutcome(rules[n], rec) == []) <==>
      forall n, i :: n in rules && 0 <= i < |rules[n].validators| ==>
        rules[n].validators[i].Validate(rec[rules[n].index]).None?
  {
    forall n | n in rules {
      CollectEmptyIff(rules[n].name, rules[n].validators, rec[rules[n].index]);
    }
  }

  /**
   * An empty field governed by two rules, one asking for three runes and one
   * asking for a non-empty value, fails both: one error under each rule's name.
   */
  lemma EmptyFieldFailsTwoRules(ne: NotEmptyValidator, off: Uintptr)
    ensures var rec: Record := map[[0] := []];
      && RuleOutcome(Rule("a", [MinLen(LengthFamily.MinLength(3))], off, [0]), rec)
         == [RuleError("a", MinLenViolated(LengthFamily.MinLengthViolation([], 3, LengthFamily.MinLength(3))))]
      && RuleOutcome(Rule("b", [NotEmpty(ne)], off, [0]), rec)
         == [RuleError("b", RangeMinViolated(RangeMinViolation(1, 0, [])))]
  {
    var rec: Record := map[[0] := []];
    assert rec[[0]] == [];
    assert [MinLen(LengthFamily.MinLength(3))][..0] == [];
    assert [NotEmpty(ne)][..0] == [];
  }

  /** The names of the rules that report at least one error on `rec`. */
  ghost function FailingRules(rules: map<string, Rule>, rec: Record): set<string>
    requires forall n :: n in rules ==> rules[n].index in rec
  {
    set n | n in rules && RuleOutcome(rules[n], rec) != []
  }

  /** The names heading the entries of a registry's result. */
  function ReportNames(errs: seq<seq<RuleError>>): (r: set<string>)
    requires forall k :: 0 <= k < |errs| ==> |errs[k]| > 0
    ensures forall k :: 0 <= k < |errs| ==> errs[k][0].name in r
    ensures forall n :: n in r ==> exists k :: 0 <= k < |errs| && errs[k][0].name == n
  {
    if errs == [] then {} else ReportNames(errs[..|errs| - 1]) + {errs[|errs| - 1][0].name}
  }

  /** Entries under pairwise distinct names are as many as their names. */
  lemma {:induction false} DistinctReportNames(errs: seq<seq<RuleError>>)
    requires forall k :: 0 <= k < |errs| ==> |errs[k]| > 0
    requires forall i, j :: 0 <= i < j < |errs| ==> |errs[i]| > 0 && |errs[j]| > 0 && errs[i][0].name != errs[j][0].name
    ensures |ReportNames(errs)| == |errs|
  {
    if errs != [] {
      var init: seq<seq<RuleError>> := errs[..|errs| - 1];
      var last := errs[|errs| - 1][0].name;
      forall i, j | 0 <= i < j < |init|
        ensures |init[i]| > 0 && |init[j]| > 0 && init[i][0].name != init[j][0].name
      {
        assert init[i] == errs[i] && init[j] == errs[j];
      }
      DistinctReportNames(init);
      forall k | 0 <= k < |init|
        ensures init[k][0].name != last
      {
        assert init[k] == errs[k];
      }
      assert last !in ReportNames(init);
    }
  }

  /**
   * A result holding one entry per failing rule, each under its rule's name
   * and no two under the same name, has exactly as many entries as there are
   * failing rules.
   */
  lemma ReportsCount(errs: seq<seq<RuleError>>, rules: map<string, Rule>, rec: Record)
    requires forall n :: n in rules ==> rules[n].index in rec && rules[n].name == n
    requires forall e: seq<RuleError> :: e in errs ==>
      e != [] && e[0].name in rules && e == RuleOutcome(rules[e[0].name], rec)
    requires forall n :: n in rules && RuleOutcome(rules[n], rec) != [] ==> RuleOutcome(rules[n], rec) in errs
    requires forall i, j :: 0 <= i < j < |errs| ==> |errs[i]| > 0 && |errs[j]| > 0 && errs[i][0].name != errs[j][0].name
    ensures |errs| == |FailingRules(rules, rec)|
  {
    assert forall k :: 0 <= k < |errs| ==> errs[k] in errs;
    DistinctReportNames(errs);
    ReportNamesFail(errs, rules, rec);
    FailingReported(errs, rules, rec);
    assert ReportNames(errs) == FailingRules(rules, rec);
  }

  /** Every name heading an entry names a failing rule. */
  lemma ReportNamesFail(errs: seq<seq<RuleError>>, rules: map<string, Rule>, rec: Record)
    requires forall n :: n in rules ==> rules[n].index in rec
    requires forall e: seq<RuleError> :: e in errs ==>
      e != [] && e[0].name in rules && e == RuleOutcome(rules[e[0].name], rec)
    ensures forall k :: 0 <= k < |errs| ==> |errs[k]| > 0
    ensures ReportNames(errs) <= FailingRules(rules, rec)
  {
    assert forall k :: 0 <= k < |errs| ==> errs[k] in errs;
    forall n | n in ReportNames(errs)
      ensures n in FailingRules(rules, rec)
    {
      var k :| 0 <= k < |errs| && errs[k][0].name == n;
      assert errs[k] in errs;
    }
  }

  /** Every failing rule heads an entry. */
  lemma FailingReported(errs: seq<seq<RuleError>>, rules: map<string, Rule>, rec: Record)
    requires forall n :: n in rules ==> rules[n].index in rec && rules[n].name == n
    requires forall k :: 0 <= k < |errs| ==> |errs[k]| > 0
    requires forall n :: n in rules && RuleOutcome(rules[n], rec) != [] ==> RuleOutcome(rules[n], rec) in errs
    ensures FailingRules(rules, rec) <= ReportNames(errs)
  {
    forall n | n in FailingRules(rules, rec)
      ensures n in ReportNames(errs)
    {
      var e := RuleOutcome(rules[n], rec);
      assert e in errs;
      var k :| 0 <= k < |errs| && errs[k] == e;
    }
  }

  /**
   * What a registry's result holds once the rules outside `remaining` have
   * been visited: each entry is the non-empty report of a visited rule, under
   * that rule's name; every visited failing rule has its entry; no two
   * entries share a name.
   */
  ghost predicate Reported(rules: map<string, Rule>, rec: Record, remaining: set<string>, errs: seq<seq<RuleError>>)
    requires forall n :: n in rules ==> rules[n].index in rec
  {
    && remaining <= rules.Keys
    && (forall e: seq<RuleError> :: e in errs ==>
          e != [] && e[0].name in rules && e[0].name !in remaining && e == RuleOutcome(rules[e[0].name], rec))
    && (forall n :: n in rules && n !in remaining && RuleOutcome(rules[n], rec) != [] ==>
          RuleOutcome(rules[n], rec) in errs)
    && (forall i, j :: 0 <= i < j < |errs| ==> |errs[i]| > 0 && |errs[j]| > 0 && errs[i][0].name != errs[j][0].name)
  }

  /** Visiting one more rule, and appending its report when it fails, keeps `Reported`. */
  lemma ReportStep(rules: map<string, Rule>, rec: Record, remaining: set<string>, errs: seq<seq<RuleError>>, name: string)
    requires forall n :: n in rules ==> rules[n].index in rec && rules[n].name == n
    requires Reported(rules, rec, remaining, errs) && name in remaining
    ensures var err := RuleOutcome(rules[name], rec);
      Reported(rules, rec, remaining - {name}, if |err| > 0 then errs + [err] else errs)
  {
    var err := RuleOutcome(rules[name], rec);
    if |err| > 0 {
      ReportAppend(rules, rec, remaining, errs, name);
    } else {
      assert RuleOutcome(rules[name], rec) == [];
      assert forall n :: n in rules && n !in remaining - {name} && RuleOutcome(rules[n], rec) != [] ==> n !in remaining;
    }
  }

  /** Appending the report of a failing rule not yet visited keeps `Reported`. */
  lemma ReportAppend(rules: map<string, Rule>, rec: Record, remaining: set<string>, errs: seq<seq<RuleError>>, name: string)
    requires forall n :: n in rules ==> rules[n].index in rec && rules[n].name == n
    requires Reported(rules, rec, remaining, errs) && name in remaining
    requires |RuleOutcome(rules[name], rec)| > 0
    ensures Reported(rules, rec, remaining - {name}, errs + [RuleOutcome(rules[name], rec)])
  {
    var err := RuleOutcome(rules[name], rec);
    var errs': seq<seq<RuleError>> := errs + [err];
    assert err[0].name == name;
    forall e: seq<RuleError> | e in errs'
      ensures e != [] && e[0].name in rules && e[0].name !in remaining - {name}
        && e == RuleOutcome(rules[e[0].name], rec)
    {
      if e != err {
        assert e in errs;
      }
    }
    forall n | n in rules && n !in remaining - {name} && RuleOutcome(rules[n], rec) != []
      ensures RuleOutcome(rules[n], rec) in errs'
    {
      if n != name {
        assert RuleOutcome(rules[n], rec) in errs;
      } else {
        assert errs'[|errs|] == err;
      }
    }
    forall i, j | 0 <= i < j < |errs'|
      ensures |errs'[i]| > 0 && |errs'[j]| > 0 && errs'[i][0].name != errs'[j][0].name
    {
      assert errs'[i] == errs[i] && errs[i] in errs;
      if j < |errs| {
        assert errs'[j] == errs[j];
      } else {
        assert errs'[j] == err;
      }
    }
  }

  /** Once every rule is visited, `Reported` gives the registry's result its meaning. */
  lemma ReportDone(rules: map<string, Rule>, rec: Record, errs: seq<seq<RuleError>>)
    requires forall n :: n in rules ==> rules[n].index in rec && rules[n].name == n
    requires Reported(rules, rec, {}, errs)
    ensures forall e: seq<RuleError> :: e in errs ==>
      e != [] && e[0].name in rules && e == RuleOutcome(rules[e[0].name], rec)
    ensures forall n :: n in rules && RuleOutcome(rules[n], rec) != [] ==> RuleOutcome(rules[n], rec) in errs
    ensures forall i, j :: 0 <= i < j < |errs| ==> |errs[i]| > 0 && |errs[j]| > 0 && errs[i][0].name != errs[j][0].name
    ensures errs == [] <==> forall n :: n in rules ==> RuleOutcome(rules[n], rec) == []
    ensures |errs| == |FailingRules(rules, rec)|
  {
    if errs != [] {
      assert errs[0] in errs;
    }
    ReportsCount(errs, rules, rec);
  }

  class RuleSet {
    /** The address of the template record. */
    const base: Uintptr
    /** The visible fields of the template's record type. */
    const fields: seq<Field>
    /** The rules by name; None is the nil map, made on the first Add. */
    var rules: Option<map<string, Rule>>

    function Rules(): map<string, Rule>
      reads this
    {
      match rules
      case None => map[]
      case Some(m) => m
    }

    /** Every rule is stored under its own name and governs a visible field. */
    ghost predicate Valid()
      reads this
    {
      forall n :: n in Rules() ==> Rules()[n].name == n && Field(Rules()[n].offset, Rules()[n].index) in fields
    }

    constructor (base: Uintptr, fields: seq<Field>)
      ensures this.base == base && this.fields == fields
      ensures rules.None? && Valid()
    {
      this.base := base;
      this.fields := fields;
      rules := None;
    }

    /**
     * Registers `vs` under `name` for the field that `p` points at. A pointer
     * that is not exactly at a visible field's offset panics before anything
     * is stored; otherwise the rule replaces any earlier rule of that name.
     */
    method Add(p: Uintptr, name: string, vs: seq<Validator>) returns (res: Outcome<string>)
      requires Valid()
      modifies this
      ensures Valid()
      ensures res.Pass? <==> FirstAt(fields, OffsetOf(base, p)).Some?
      ensures res.Fail? ==> res.error == "xxx" && rules == old(rules)
      ensures res.Pass? ==>
        var f := fields[FirstAt(fields, OffsetOf(base, p)).value];
        rules == Some(old(Rules())[name := Rule(name, vs, f.offset, f.index)])
      ensures res.Pass? ==> forall n :: n in old(Rules()) && n != name ==> n in Rules() && Rules()[n] == old(Rules())[n]
    {
      var off := OffsetOf(base, p);
      var f := LookupStructField(fields, off);
      if f.Failure? {
        return Fail(f.error);
      }
      var k := FirstAt(fields, off).value;
      assert Field(f.value.offset, f.value.index) == fields[k] && fields[k] in fields;
      if rules.None? {
        rules := Some(map[]);
      }
      ghost var before := Rules();
      rules := Some(rules.value[name := Rule(name, vs, f.value.offset, f.value.index)]);
      assert Rules() == before[name := Rule(name, vs, f.value.offset, f.value.index)];
      return Pass;
    }

    /**
     * Runs every rule on its field of the target (or of the record it points
     * to). The rules are visited in an unspecified order; the result holds
     * exactly one non-empty entry per failing rule and is empty exactly when
     * every rule passes.
     */
    method Validate(target: Target) returns (errs: seq<seq<RuleError>>)
      requires Valid()
      requires forall n :: n in Rules() ==> Rules()[n].index in target.Deref()
      ensures forall e: seq<RuleError> :: e in errs ==>
        e != [] && e[0].name in Rules() && e == RuleOutcome(Rules()[e[0].name], target.Deref())
      ensures forall n :: n in Rules() && RuleOutcome(Rules()[n], target.Deref()) != [] ==>
        RuleOutcome(Rules()[n], target.Deref()) in errs
      ensures forall i, j :: 0 <= i < j < |errs| ==> |errs[i]| > 0 && |errs[j]| > 0 && errs[i][0].name != errs[j][0].name
      ensures errs == [] <==> forall n :: n in Rules() ==> RuleOutcome(Rules()[n], target.Deref()) == []
      ensures |errs| == |FailingRules(Rules(), target.Deref())|
    {
      errs := VisitRules(Rules(), target.Deref());
      ReportDone(Rules(), target.Deref(), errs);
    }
  }

  /**
   * The loop of `RuleSet.Validate`: visits the rules in an unspecified order
   * and appends the report of each failing one.
   */
  method VisitRules(m: map<string, Rule>, rec: Record) returns (errs: seq<seq<RuleError>>)
    requires forall n :: n in m ==> m[n].index in rec && m[n].name == n
    ensures Reported(m, rec, {}, errs)
  {
    var remaining := m.Keys;
    errs := [];
    while remaining != {}
      invariant Reported(m, rec, remaining, errs)
      decreases remaining
    {
      var name :| name in remaining;
      var rule := m[name];
      var err := rule.Validate(rec[rule.index]);
      ReportStep(m, rec, remaining, errs, name);
      if |err| > 0 {
        errs := errs + [err];
      }
      remaining := remaining - {name};
    }
  }

  // ---------------------------------------------------------------- building a registry

  /** One `Add` call made by a registry's build function. */
  datatype Registration = Registration(p: Uintptr, name: string, validators: seq<Validator>)

  /** The rule a registration stores, or None when its pointer is at no field. */
  function RuleFor(base: Uintptr, fields: seq<Field>, reg: Registration): Option<Rule> {
    match FirstAt(fields, OffsetOf(base, reg.p))
    case None => None
    case Some(k) => Some(Rule(reg.name, reg.validators, fields[k].offset, fields[k].index))
  }

  /** The rules left by making the registrations in order, or None if one of them panics. */
  function Build(base: Uintptr, fields: seq<Field>, regs: seq<Registration>): Option<map<string, Rule>>
    decreases |regs|
  {
    if regs == [] then Some(map[])
    else match Build(base, fields, regs[..|regs| - 1])
      case None => None
      case Some(m) =>
        var reg := regs[|regs| - 1];
        match RuleFor(base, fields, reg)
        case None => None
        case Some(r) => Some(m[reg.name := r])
  }

  /** Building fails exactly when some registration points at no field. */
  lemma {:induction false} BuildFailsIff(base: Uintptr, fields: seq<Field>, regs: seq<Registration>)
    ensures Build(base, fields, regs).None? <==>
      exists i :: 0 <= i < |regs| && RuleFor(base, fields, regs[i]).None?
    decreases |regs|
  {
    if regs != [] {
      var n := |regs| - 1;
      BuildFailsIff(base, fields, regs[..n]);
      assert forall i :: 0 <= i < n ==> regs[..n][i] == regs[i];
    }
  }

  /** Registration `i` is the last one made under its name. */
  ghost predicate IsLastOfName(regs: seq<Registration>, i: int) {
    0 <= i < |regs| && forall j :: i < j < |regs| ==> regs[j].name != regs[i].name
  }

  /** A built registry holds exactly the names that were registered. */
  lemma {:induction false} BuildNames(base: Uintptr, fields: seq<Field>, regs: seq<Registration>)
    requires Build(base, fields, regs).Some?
    ensures forall n :: n in Build(base, fields, regs).value <==> exists i :: 0 <= i < |regs| && regs[i].name == n
    decreases |regs|
  {
    if regs != [] {
      var last := |regs| - 1;
      var prefix := regs[..last];
      var m0 := Build(base, fields, prefix).value;
      var m := Build(base, fields, regs).value;
      assert m.Keys == m0.Keys + {regs[last].name};
      BuildNames(base, fields, prefix);
      forall n | n in m
        ensures exists i :: 0 <= i < |regs| && regs[i].name == n
      {
        if n != regs[last].name {
          var i :| 0 <= i < |prefix| && prefix[i].name == n;
          assert regs[i].name == n;
        }
      }
      forall n | exists i :: 0 <= i < |regs| && regs[i].name == n
        ensures n in m
      {
        var i :| 0 <= i < |regs| && regs[i].name == n;
        if i < last {
          assert prefix[i].name == n;
        }
      }
    }
  }

  /**
   * The last registration under a name wins: the built registry maps the
   * name to the rule of that registration, whatever came before it.
   */
  lemma {:induction false} BuildLastWins(base: Uintptr, fields: seq<Field>, regs: seq<Registration>, i: nat)
    requires Build(base, fields, regs).Some?
    requires IsLastOfName(regs, i)
    ensures regs[i].name in Build(base, fields, regs).value
    ensures RuleFor(base, fields, regs[i]) == Some(Build(base, fields, regs).value[regs[i].name])
    decreases |regs|
  {
    BuildNames(base, fields, regs);
    var last := |regs| - 1;
    var prefix := regs[..last];
    if i < last {
      assert IsLastOfName(prefix, i);
      BuildLastWins(base, fields, prefix, i);
      assert prefix[i] == regs[i];
      assert regs[last].name != regs[i].name;
    }
  }

  /**
   * Builds a registry for the record type with visible fields `fields`, whose
   * template sits at `base`, by making the registrations in order; the first
   * registration at no field panics.
   */
  method Struct(base: Uintptr, fields: seq<Field>, regs: seq<Registration>) returns (r: Result<RuleSet, string>)
    ensures r.Success? <==> Build(base, fields, regs).Some?
    ensures r.Success? ==> fresh(r.value) && r.value.Valid()
    ensures r.Success? ==> r.value.base == base && r.value.fields == fields
    ensures r.Success? ==> r.value.Rules() == Build(base, fields, regs).value
    ensures r.Failure? ==> r.error == "xxx"
  {
    var s := new RuleSet(base, fields);
    for i := 0 to |regs|
      invariant fresh(s) && s.Valid() && s.base == base && s.fields == fields
      invariant Build(base, fields, regs[..i]) == Some(s.Rules())
    {
      assert regs[..i + 1][..i] == regs[..i];
      var res := s.Add(regs[i].p, regs[i].name, regs[i].validators);
      if res.Fail? {
        BuildFailsIff(base, fields, regs);
        return Failure(res.error);
      }
    }
    assert regs[..|regs|] == regs;
    return Success(s);
  }

  /** Registering rules "a" and "b" at the one field of a template at `base` stores both. */
  lemma BuildTwoRules(ne: NotEmptyValidator, base: Uintptr)
    ensures Build(base, [Field(0, [0])],
                  [Registration(base, "a", [MinLen(LengthFamily.MinLength(3))]), Registration(base, "b", [NotEmpty(ne)])])
         == Some(map["a" := Rule("a", [MinLen(LengthFamily.MinLength(3))], 0, [0]),
                     "b" := Rule("b", [NotEmpty(ne)], 0, [0])])
  {
    var fields := [Field(0, [0])];
    var regs := [Registration(base, "a", [MinLen(LengthFamily.MinLength(3))]), Registration(base, "b", [NotEmpty(ne)])];
    var ra := Rule("a", [MinLen(LengthFamily.MinLength(3))], 0, [0]);
    var rb := Rule("b", [NotEmpty(ne)], 0, [0]);
    assert OffsetOf(base, base) == 0 && FirstAt(fields, 0) == Some(0);
    assert RuleFor(base, fields, regs[0]) == Some(ra);
    assert RuleFor(base, fields, regs[1]) == Some(rb);
    assert regs[..1][..0] == [];
    assert Build(base, fields, regs[..1]) == Some(map["a" := ra]);
    assert regs[..|regs| - 1] == regs[..1];
  }

  /**
   * With rules "a" (three runes) and "b" (non-empty) on the one field, a
   * registry result for an empty field has two entries, each one error long
   * and under one of the two names.
   */
  lemma TwoRulesReport(ne: NotEmptyValidator, rules: map<string, Rule>, rec: Record, errs: seq<seq<RuleError>>)
    requires rules == map["a" := Rule("a", [MinLen(LengthFamily.MinLength(3))], 0, [0]),
                          "b" := Rule("b", [NotEmpty(ne)], 0, [0])]
    requires rec == map[[0] := []]
    requires forall e: seq<RuleError> :: e in errs ==>
      e != [] && e[0].name in rules && e == RuleOutcome(rules[e[0].name], rec)
    requires |errs| == |FailingRules(rules, rec)|
    ensures |errs| == 2
    ensures forall e: seq<RuleError> :: e in errs ==> |e| == 1 && (e[0].name == "a" || e[0].name == "b")
  {
    EmptyFieldFailsTwoRules(ne, 0);
    assert FailingRules(rules, rec) == {"a", "b"};
  }

  /**
   * A registry whose one string field is governed by two rules, "a" asking
   * for three runes and "b" asking for a non-empty value: validating a record
   * whose field is empty reports two entries, one under each rule's name.
   */
  method EmptyFieldUnderTwoRules(ne: NotEmptyValidator, base: Uintptr) returns (errs: seq<seq<RuleError>>)
    ensures |errs| == 2
    ensures forall e: seq<RuleError> :: e in errs ==> |e| == 1 && (e[0].name == "a" || e[0].name == "b")
  {
    var ra := Rule("a", [MinLen(LengthFamily.MinLength(3))], 0, [0]);
    var rb := Rule("b", [NotEmpty(ne)], 0, [0]);
    BuildTwoRules(ne, base);
    var built := Struct(base, [Field(0, [0])], [Registration(base, "a", ra.validators), Registration(base, "b", rb.validators)]);
    var s := built.value;
    var rec: Record := map[[0] := []];
    assert Value(rec).Deref() == rec;
    errs := s.Validate(Value(rec));
    TwoRulesReport(ne, s.Rules(), rec, errs);
  }
}
