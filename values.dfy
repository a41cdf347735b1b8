/** The ranking attribute chosen on the command line, and its parser. */
module Values {

  /** Go's `Value` enumeration without its two sentinels: the sentinel
      `valueStart` has ordinal 0 and `valueLast` ordinal 4, and only the three
      constants between them are real choices. */
  datatype Value = SizeValue | DateValue | NameValue {

    /** The constant's ordinal in the Go `iota` block. */
    function Ordinal(): (k: int)
      ensures ValueStart < k < ValueLast
    {
      match this
      case SizeValue => 1
      case DateValue => 2
      case NameValue => 3
    }

    /** The constant's identifier, as the generated `String()` method gives it
        (called at main.go:189). */
    function String(): string {
      match this
      case SizeValue => "SizeValue"
      case DateValue => "DateValue"
      case NameValue => "NameValue"
    }
  }

  const ValueStart: int := 0
  const ValueLast: int := 4

  /** The constant with ordinal `k`. */
  function FromOrdinal(k: int): (v: Value)
    requires ValueStart < k < ValueLast
    ensures v.Ordinal() == k
  {
    if k == 1 then SizeValue else if k == 2 then DateValue else NameValue
  }

  /** The command-line word that selects `v` (main.go:185-193). */
  function Keyword(v: Value): string {
    match v
    case SizeValue => "size"
    case DateValue => "date"
    case NameValue => "name"
  }

  function ToLowerChar(c: char): char {
    if 'A' <= c <= 'Z' then (c as int - 'A' as int + 'a' as int) as char else c
  }

  /** `strings.ToLower` at main.go:189; the identifiers it is applied to are ASCII. */
  function ToLower(s: string): (r: string)
    ensures |r| == |s|
    ensures forall i :: 0 <= i < |s| ==> r[i] == ToLowerChar(s[i])
  {
    if s == [] then [] else [ToLowerChar(s[0])] + ToLower(s[1..])
  }

  /** The outcome of parsing a value name: the constant, or the error message. */
  datatype Parsed = Ok(value: Value) | Err(message: string)

  /** The lower-cased identifier of every constant is its keyword followed by "value". */
  lemma LowerString(v: Value)
    ensures ToLower(v.String()) == Keyword(v) + "value"
  {
    var s, t := ToLower(v.String()), Keyword(v) + "value";
    assert |s| == |t|;
    forall i | 0 <= i < |s| ensures s[i] == t[i] {
    }
  }

  /** Appending the same suffix is injective. */
  lemma SuffixCancel(a: string, b: string, x: string)
    requires a + x == b + x
    ensures a == b
  {
    assert |a| == |b|;
    assert a == (a + x)[..|a|];
    assert b == (b + x)[..|b|];
  }

  /** A word whose "value"-suffixed form matches no lower-cased identifier is no keyword. */
  lemma NoKeyword(s: string)
    requires forall j :: ValueStart < j < ValueLast ==> ToLower(FromOrdinal(j).String()) != s + "value"
    ensures forall w: Value :: s != Keyword(w)
  {
    forall w: Value ensures s != Keyword(w) {
      LowerString(w);
      assert FromOrdinal(w.Ordinal()) == w;
    }
  }

  /** Parses a value name: appends "value" and compares it with the
      lower-cased identifier of each constant strictly between the sentinels. */
  method StrToValue(s: string) returns (r: Parsed)
    ensures forall v: Value :: r == Ok(v) <==> s == Keyword(v)
    ensures r.Err? ==> r.message == "unknown value: " + s + "value"
  {
    var t := s + "value";
    var k := ValueStart + 1;
    while k < ValueLast
      invariant ValueStart + 1 <= k <= ValueLast
      invariant forall j :: ValueStart < j < k ==> ToLower(FromOrdinal(j).String()) != t
    {
      var v := FromOrdinal(k);
      if ToLower(v.String()) == t {
        LowerString(v);
        SuffixCancel(s, Keyword(v), "value");
        return Ok(v);
      }
      k := k + 1;
    }
    NoKeyword(s);
    r := Err("unknown value: " + t);
  }
}
