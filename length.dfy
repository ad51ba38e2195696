/**
 * The length family of validators: MinLength, MaxLength and Length. Each is
 * a threshold record plus an optional printer; a validator is never changed
 * after it is built (configuring a printer yields a copy), so each is a
 * datatype value here. Lengths are counted in runes, as Go's
 * `len([]rune(s))` counts them, not in bytes.
 */
module LengthFamily {
  import opened Wrappers
  import opened Utf8
  import opened Decimal

  /** What a custom printer writes for a MinLength violation, given its Value and Min. */
  type MinLengthPrinter = (GoString, int) -> string

  /** What a custom printer writes for a MaxLength violation, given its Value and Max. */
  type MaxLengthPrinter = (GoString, int) -> string

  /** What a custom printer writes for a Length violation, given its Value, Min and Max. */
  type LengthPrinter = (GoString, int, int) -> string

  const MinLengthPrefix := "the length must be no less than "
  const MaxLengthPrefix := "the length must be no greater than "
  const LengthPrefix := "the length must be in range("
  const LengthSeparator := " ... "
  const LengthSuffix := ")"

  predicate NoSpace(s: string) {
    forall i :: 0 <= i < |s| ==> s[i] != ' '
  }

  // ---------------------------------------------------------------- MinLength

  /** The factory: sets the threshold and leaves the printer unset. */
  function MinLength(n: int): (r: MinLengthValidator)
    ensures r.min == n && r.p.None?
  {
    MinLengthValidator(n, None)
  }

  datatype MinLengthValidator = MinLengthValidator(min: int, p: Option<MinLengthPrinter>) {

    /** A copy of this validator with the printer `q` (None is nil); this one is left as it was. */
    function WithPrinter(q: Option<MinLengthPrinter>): (r: MinLengthValidator)
      ensures r.min == min && r.p == q
      ensures forall s :: r.Validate(s).Some? <==> Validate(s).Some?
      ensures forall s :: r.Validate(s).Some? && q.Some? ==> r.Validate(s).value.Error() == q.value(s, min)
      ensures forall s :: r.Validate(s).Some? && q.None? ==> r.Validate(s).value.Error() == MinLengthDefault(min)
    {
      MinLengthValidator(min, q)
    }

    /** A copy whose printer writes `fn` applied to the violation's Min only. */
    function WithPrinterFunc(fn: int -> string): (r: MinLengthValidator)
      ensures r.min == min && r.p.Some?
      ensures forall s :: r.Validate(s).Some? <==> Validate(s).Some?
      ensures forall s :: r.Validate(s).Some? ==> r.Validate(s).value.Error() == fn(min)
    {
      MinLengthValidator(min, Some((v: GoString, m: int) => fn(m)))
    }

    /** A violation exactly when `s` has fewer than `min` runes. */
    function Validate(s: GoString): (r: Option<MinLengthViolation>)
      ensures r.Some? <==> RuneCount(s) < min
      ensures r.Some? ==> r.value == MinLengthViolation(s, min, this)
    {
      if |Runes(s)| < min then Some(MinLengthViolation(s, min, this)) else None
    }
  }

  /** A failed MinLength check; `rule` is the validator that produced it. */
  datatype MinLengthViolation = MinLengthViolation(value: GoString, min: int, rule: MinLengthValidator) {

    /** The message: the producing validator's printer, or the default template. */
    function Error(): (r: string)
      ensures rule.p.Some? ==> r == rule.p.value(value, min)
      ensures rule.p.None? ==> r == MinLengthDefault(min)
    {
      match rule.p
      case Some(q) => q(value, min)
      case None => MinLengthDefault(min)
    }
  }

  /** The default printer's text: the fixed prefix, then Min in decimal. */
  function MinLengthDefault(min: int): (r: string)
    ensures |MinLengthPrefix| < |r| && r[..|MinLengthPrefix|] == MinLengthPrefix
    ensures r[|MinLengthPrefix|..] == IntToString(min)
    ensures ParseInt(r[|MinLengthPrefix|..]) == Some(min)
  {
    var r := MinLengthPrefix + IntToString(min);
    assert r[|MinLengthPrefix|..] == IntToString(min);
    ParseIntToString(min);
    r
  }

  // ---------------------------------------------------------------- MaxLength

  /** The factory: sets the threshold and leaves the printer unset. */
  function MaxLength(n: int): (r: MaxLengthValidator)
    ensures r.max == n && r.p.None?
  {
    MaxLengthValidator(n, None)
  }

  datatype MaxLengthValidator = MaxLengthValidator(max: int, p: Option<MaxLengthPrinter>) {

    /** A copy of this validator with the printer `q` (None is nil); this one is left as it was. */
    function WithPrinter(q: Option<MaxLengthPrinter>): (r: MaxLengthValidator)
      ensures r.max == max && r.p == q
      ensures forall s :: r.Validate(s).Some? <==> Validate(s).Some?
      ensures forall s :: r.Validate(s).Some? && q.Some? ==> r.Validate(s).value.Error() == q.value(s, max)
      ensures forall s :: r.Validate(s).Some? && q.None? ==> r.Validate(s).value.Error() == MaxLengthDefault(max)
    {
      MaxLengthValidator(max, q)
    }

    /** A copy whose printer writes `fn` applied to the violation's Max only. */
    function WithPrinterFunc(fn: int -> string): (r: MaxLengthValidator)
      ensures r.max == max && r.p.Some?
      ensures forall s :: r.Validate(s).Some? <==> Validate(s).Some?
      ensures forall s :: r.Validate(s).Some? ==> r.Validate(s).value.Error() == fn(max)
    {
      MaxLengthValidator(max, Some((v: GoString, m: int) => fn(m)))
    }

    /** A violation exactly when `s` has more than `max` runes. */
    function Validate(s: GoString): (r: Option<MaxLengthViolation>)
      ensures r.Some? <==> RuneCount(s) > max
      ensures r.Some? ==> r.value == MaxLengthViolation(s, max, this)
    {
      if |Runes(s)| > max then Some(MaxLengthViolation(s, max, this)) else None
    }
  }

  /** A failed MaxLength check; `rule` is the validator that produced it. */
  datatype MaxLengthViolation = MaxLengthViolation(value: GoString, max: int, rule: MaxLengthValidator) {

    /** The message: the producing validator's printer, or the default template. */
    function Error(): (r: string)
      ensures rule.p.Some? ==> r == rule.p.value(value, max)
      ensures rule.p.None? ==> r == MaxLengthDefault(max)
    {
      match rule.p
      case Some(q) => q(value, max)
      case None => MaxLengthDefault(max)
    }
  }

  /** The default printer's text: the fixed prefix, then Max in decimal. */
  function MaxLengthDefault(max: int): (r: string)
    ensures |MaxLengthPrefix| < |r| && r[..|MaxLengthPrefix|] == MaxLengthPrefix
    ensures r[|MaxLengthPrefix|..] == IntToString(max)
    ensures ParseInt(r[|MaxLengthPrefix|..]) == Some(max)
  {
    var r := MaxLengthPrefix + IntToString(max);
    assert r[|MaxLengthPrefix|..] == IntToString(max);
    ParseIntToString(max);
    r
  }

  // ---------------------------------------------------------------- Length

  /** The factory: sets both thresholds and leaves the printer unset. */
  function Length(min: int, max: int): (r: LengthValidator)
    ensures r.min == min && r.max == max && r.p.None?
  {
    LengthValidator(min, max, None)
  }

  datatype LengthValidator = LengthValidator(min: int, max: int, p: Option<LengthPrinter>) {

    /** A copy of this validator with the printer `q` (None is nil); this one is left as it was. */
    function WithPrinter(q: Option<LengthPrinter>): (r: LengthValidator)
      ensures r.min == min && r.max == max && r.p == q
      ensures forall s :: r.Validate(s).Some? <==> Validate(s).Some?
      ensures forall s :: r.Validate(s).Some? && q.Some? ==> r.Validate(s).value.Error() == q.value(s, min, max)
      ensures forall s :: r.Validate(s).Some? && q.None? ==> r.Validate(s).value.Error() == LengthDefault(min, max)
    {
      LengthValidator(min, max, q)
    }

    /** A copy whose printer writes `fn` applied to the violation's Min and Max only. */
    function WithPrinterFunc(fn: (int, int) -> string): (r: LengthValidator)
      ensures r.min == min && r.max == max && r.p.Some?
      ensures forall s :: r.Validate(s).Some? <==> Validate(s).Some?
      ensures forall s :: r.Validate(s).Some? ==> r.Validate(s).value.Error() == fn(min, max)
    {
      LengthValidator(min, max, Some((v: GoString, lo: int, hi: int) => fn(lo, hi)))
    }

    /** No violation exactly when the rune count lies in [min, max], both ends included. */
    function Validate(s: GoString): (r: Option<LengthViolation>)
      ensures r.None? <==> min <= RuneCount(s) <= max
      ensures r.Some? ==> r.value == LengthViolation(s, min, max, this)
    {
      var n := |Runes(s)|;
      if n < min || n > max then Some(LengthViolation(s, min, max, this)) else None
    }
  }

  /** A failed Length check; `rule` is the validator that produced it. */
  datatype LengthViolation = LengthViolation(value: GoString, min: int, max: int, rule: LengthValidator) {

    /** The message: the producing validator's printer, or the default template. */
    function Error(): (r: string)
      ensures rule.p.Some? ==> r == rule.p.value(value, min, max)
      ensures rule.p.None? ==> r == LengthDefault(min, max)
    {
      match rule.p
      case Some(q) => q(value, min, max)
      case None => LengthDefault(min, max)
    }
  }

  /** The default printer's text: "the length must be in range(MIN ... MAX)". */
  function LengthDefault(min: int, max: int): (r: string)
    ensures |LengthPrefix| < |r| && r[..|LengthPrefix|] == LengthPrefix
    ensures r[|r| - 1..] == LengthSuffix
    ensures exists a, b ::
              r == LengthPrefix + a + LengthSeparator + b + LengthSuffix
              && a == IntToString(min) && b == IntToString(max)
              && ParseInt(a) == Some(min) && ParseInt(b) == Some(max)
  {
    var a, b := IntToString(min), IntToString(max);
    ParseIntToString(min);
    ParseIntToString(max);
    LengthPrefix + a + LengthSeparator + b + LengthSuffix
  }

  lemma IntToStringNoSpace(n: int)
    ensures NoSpace(IntToString(n))
  {
  }

  /** Two space-free words followed by the separator can only be split one way. */
  lemma SplitAtSeparator(a: string, c: string, x: string, y: string)
    requires NoSpace(a) && NoSpace(c)
    requires a + LengthSeparator + x == c + LengthSeparator + y
    ensures a == c && x == y
  {
    var u := a + LengthSeparator + x;
    assert u[|a|] == ' ' && u[|c|] == ' ';
    assert forall k :: 0 <= k < |a| ==> u[k] == a[k];
    assert forall k :: 0 <= k < |c| ==> u[k] == c[k];
    assert |a| == |c|;
    assert a == u[..|a|] == c;
    assert x == u[|a| + |LengthSeparator|..] == y;
  }

  /** A range text with space-free lower bounds determines both of its bounds. */
  lemma RangeTextInjective(a: string, x: string, c: string, y: string)
    requires NoSpace(a) && NoSpace(c)
    requires LengthPrefix + a + LengthSeparator + x + LengthSuffix == LengthPrefix + c + LengthSeparator + y + LengthSuffix
    ensures a == c && x == y
  {
    var u := LengthPrefix + a + LengthSeparator + x + LengthSuffix;
    assert u == LengthPrefix + (a + LengthSeparator + (x + LengthSuffix));
    assert u == LengthPrefix + (c + LengthSeparator + (y + LengthSuffix));
    assert a + LengthSeparator + (x + LengthSuffix) == u[|LengthPrefix|..] == c + LengthSeparator + (y + LengthSuffix);
    SplitAtSeparator(a, c, x + LengthSuffix, y + LengthSuffix);
    assert x == (x + LengthSuffix)[..|x|];
    assert y == (y + LengthSuffix)[..|y|];
  }

  /** The default range message determines both thresholds. */
  lemma LengthDefaultInjective(min1: int, max1: int, min2: int, max2: int)
    requires LengthDefault(min1, max1) == LengthDefault(min2, max2)
    ensures min1 == min2 && max1 == max2
  {
    IntToStringNoSpace(min1);
    IntToStringNoSpace(min2);
    RangeTextInjective(IntToString(min1), IntToString(max1), IntToString(min2), IntToString(max2));
    IntToStringInjective(min1, min2);
    IntToStringInjective(max1, max2);
  }

  // ---------------------------------------------------------------- properties

  /** On a well-formed string, each validator compares the number of characters, not bytes. */
  lemma CountsCharacters(rs: seq<Rune>, lo: int, hi: int)
    requires AllScalar(rs)
    ensures MinLength(lo).Validate(Encode(rs)).Some? <==> |rs| < lo
    ensures MaxLength(hi).Validate(Encode(rs)).Some? <==> |rs| > hi
    ensures Length(lo, hi).Validate(Encode(rs)).None? <==> lo <= |rs| <= hi
  {
    RuneCountEncode(rs);
  }

  /** "日本語" (three characters, nine bytes) satisfies MinLength(3) and fails MaxLength(2). */
  lemma MultiByteExample()
    ensures MinLength(3).Validate([0xE6, 0x97, 0xA5, 0xE6, 0x9C, 0xAC, 0xE8, 0xAA, 0x9E]).None?
    ensures MaxLength(2).Validate([0xE6, 0x97, 0xA5, 0xE6, 0x9C, 0xAC, 0xE8, 0xAA, 0x9E]).Some?
  {
    ThreeMultiByteRunes();
  }

  /**
   * Configuring a printer on a copy changes the text of the copy's violations
   * only: the validator it was copied from still renders the default text.
   */
  lemma CopyOnConfigure(n: int, q: MinLengthPrinter, s: GoString)
    requires RuneCount(s) < n
    ensures MinLength(n).Validate(s).value.Error() == MinLengthDefault(n)
    ensures MinLength(n).WithPrinter(Some(q)).Validate(s).value.Error() == q(s, n)
  {
  }
}
