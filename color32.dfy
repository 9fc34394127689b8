/**
 * UnityObjects.Color32: a 32-bit RGBA colour, one byte per component, laid out
 * r, g, b, a at byte offsets 0..3. It is a C# struct, so it is a value here:
 * the indexer's setter yields the updated value.
 */
module UnityColor {
  import opened Wire
  import opened Results

  datatype Color32 = Color32(r: byte, g: byte, b: byte, a: byte)

  /** The struct's bytes in memory, by field offset. */
  function HostBytes(c: Color32): (s: seq<byte>)
  {
    [c.r, c.g, c.b, c.a]
  }

  /** The constructor Color32(r, g, b, a): the indexer then returns the four arguments in order. */
  function FromComponents(r: byte, g: byte, b: byte, a: byte): (c: Color32)
    ensures Get(c, 0) == Ok(r) && Get(c, 1) == Ok(g) && Get(c, 2) == Ok(b) && Get(c, 3) == Ok(a)
    ensures HostBytes(c) == [r, g, b, a]
  {
    Color32(r, g, b, a)
  }

  /** The indexer's getter: index i is the component at byte offset i; any other index throws. */
  function Get(c: Color32, index: int): (v: Result<byte>)
    ensures v.Ok? <==> 0 <= index < 4
    ensures v.Ok? ==> v.value == HostBytes(c)[index]
    ensures v.Err? ==> v.error == IndexOutOfRange
  {
    match index
    case 0 => Ok(c.r)
    case 1 => Ok(c.g)
    case 2 => Ok(c.b)
    case 3 => Ok(c.a)
    case _ => Err(IndexOutOfRange)
  }

  /** The indexer's setter: only the indexed component changes; any other index throws. */
  function Set(c: Color32, index: int, value: byte): (d: Result<Color32>)
    ensures d.Ok? <==> 0 <= index < 4
    ensures d.Err? ==> d.error == IndexOutOfRange
    ensures d.Ok? ==> Get(d.value, index) == Ok(value)
    ensures d.Ok? ==> forall j :: j != index ==> Get(d.value, j) == Get(c, j)
  {
    match index
    case 0 => Ok(c.(r := value))
    case 1 => Ok(c.(g := value))
    case 2 => Ok(c.(b := value))
    case 3 => Ok(c.(a := value))
    case _ => Err(IndexOutOfRange)
  }

  // ---------------------------------------------------------------------------
  // ToString(): "RGBA(r, g, b, a)" with invariant-culture decimal numbers
  // ---------------------------------------------------------------------------

  predicate IsDigit(ch: char) {
    '0' <= ch <= '9'
  }

  function DigitChar(d: nat): (ch: char)
    requires d < 10
    ensures IsDigit(ch)
  {
    ('0' as int + d) as char
  }

  /** The invariant-culture decimal text of n: no sign, no grouping, no leading zeros. */
  function Decimal(n: nat): (s: string)
    ensures 1 <= |s|
    ensures forall i :: 0 <= i < |s| ==> IsDigit(s[i])
    ensures n >= 10 <==> |s| >= 2
  {
    if n < 10 then [DigitChar(n)] else Decimal(n / 10) + [DigitChar(n % 10)]
  }

  function DigitsValue(s: string): nat
    requires forall i :: 0 <= i < |s| ==> IsDigit(s[i])
  {
    if s == [] then 0
    else
      assert IsDigit(s[|s| - 1]);
      DigitsValue(s[..|s| - 1]) * 10 + (s[|s| - 1] as int - '0' as int)
  }

  lemma {:induction false} DecimalValue(n: nat)
    ensures DigitsValue(Decimal(n)) == n
  {
    if n >= 10 {
      var s := Decimal(n);
      assert s[..|s| - 1] == Decimal(n / 10);
      DecimalValue(n / 10);
    }
  }

  function ToString(c: Color32): (s: string)
  {
    "RGBA(" + Decimal(c.r as nat) + ", " + Decimal(c.g as nat) + ", " + Decimal(c.b as nat) + ", " + Decimal(c.a as nat) + ")"
  }

  /** The length of the longest prefix of s made of digits. */
  function SpanDigits(s: string): (k: nat)
    ensures k <= |s|
    ensures forall i :: 0 <= i < k ==> IsDigit(s[i])
    ensures k < |s| ==> !IsDigit(s[k])
  {
    if s != [] && IsDigit(s[0]) then 1 + SpanDigits(s[1..]) else 0
  }

  /** Reads a decimal byte value at the start of s and returns it with the rest of s. */
  function ParseComponent(s: string): Option<(byte, string)>
  {
    var k := SpanDigits(s);
    if k == 0 then None
    else
      var v := DigitsValue(s[..k]);
      if v < 256 then Some((v as byte, s[k..])) else None
  }

  /** The rest of s after `prefix`, if s starts with it. */
  function After(prefix: string, s: string): Option<string>
  {
    if |prefix| <= |s| && s[..|prefix|] == prefix then Some(s[|prefix|..]) else None
  }

  /** Reads ", " followed by a component. */
  function ParseNext(s: string): Option<(byte, string)>
  {
    match After(", ", s)
    case None => None
    case Some(t) => ParseComponent(t)
  }

  /** A reader for the text ToString produces. */
  function ParseRgba(s: string): Option<Color32>
  {
    match After("RGBA(", s)
    case None => None
    case Some(t0) =>
      match ParseComponent(t0)
      case None => None
      case Some((r, t1)) =>
        match ParseNext(t1)
        case None => None
        case Some((g, t2)) =>
          match ParseNext(t2)
          case None => None
          case Some((b, t3)) =>
            match ParseNext(t3)
            case None => None
            case Some((a, t4)) =>
              if t4 == ")" then Some(Color32(r, g, b, a)) else None
  }

  lemma ParseComponentOfDecimal(v: byte, rest: string)
    requires rest != [] && !IsDigit(rest[0])
    ensures ParseComponent(Decimal(v as nat) + rest) == Some((v, rest))
  {
    var d := Decimal(v as nat);
    var s := d + rest;
    SpanOfDigitsThen(d, rest);
    assert s[..|d|] == d;
    DecimalValue(v as nat);
    assert s[|d|..] == rest;
  }

  lemma {:induction false} SpanOfDigitsThen(d: string, rest: string)
    requires forall i :: 0 <= i < |d| ==> IsDigit(d[i])
    requires rest != [] && !IsDigit(rest[0])
    ensures SpanDigits(d + rest) == |d|
  {
    if d != [] {
      assert (d + rest)[1..] == d[1..] + rest;
      SpanOfDigitsThen(d[1..], rest);
    }
  }

  lemma ParseNextOfDecimal(v: byte, rest: string)
    requires rest != [] && !IsDigit(rest[0])
    ensures ParseNext(", " + Decimal(v as nat) + rest) == Some((v, rest))
  {
    var t := ", " + Decimal(v as nat) + rest;
    assert t[2..] == Decimal(v as nat) + rest;
    ParseComponentOfDecimal(v, rest);
  }

  /** ToString loses nothing: the four components can be read back from the text. */
  lemma ToStringRoundTrip(c: Color32)
    ensures ParseRgba(ToString(c)) == Some(c)
  {
    var dr, dg, db, da := Decimal(c.r as nat), Decimal(c.g as nat), Decimal(c.b as nat), Decimal(c.a as nat);
    var t3 := ", " + da + ")";
    var t2 := ", " + db + t3;
    var t1 := ", " + dg + t2;
    var t0 := dr + t1;
    assert ToString(c) == "RGBA(" + t0;
    assert (ToString(c))[5..] == t0;
    assert After("RGBA(", ToString(c)) == Some(t0);
    ParseComponentOfDecimal(c.r, t1);
    ParseNextOfDecimal(c.g, t2);
    ParseNextOfDecimal(c.b, t3);
    ParseNextOfDecimal(c.a, ")");
  }

  /** Hence distinct colours print differently. */
  lemma ToStringInjective(c: Color32, d: Color32)
    requires ToString(c) == ToString(d)
    ensures c == d
  {
    ToStringRoundTrip(c);
    ToStringRoundTrip(d);
  }
}
