/**
 * The key a value becomes when PHP stores it as an array key, as
 * `array_combine` does with the entries of its key list: integers stay
 * integers; anything else is turned into its string, and a string that is
 * the canonical decimal text of a 64-bit integer becomes that integer.
 */
module Keys {
  import opened Wrappers
  import opened Values

  const MaxInt: int := 0x7fff_ffff_ffff_ffff
  const MinInt: int := -0x8000_0000_0000_0000

  predicate IsDigit(c: char) {
    '0' <= c <= '9'
  }

  predicate AllDigits(d: string) {
    forall i :: 0 <= i < |d| ==> IsDigit(d[i])
  }

  /** The value of a digit character. */
  function DigitValue(c: char): (r: nat)
    requires IsDigit(c)
    ensures r < 10
  {
    c as int - '0' as int
  }

  /** The number a string of decimal digits spells, most significant first. */
  function DigitsValue(d: string): nat
    requires AllDigits(d)
  {
    if |d| == 0 then 0 else DigitsValue(d[..|d| - 1]) * 10 + DigitValue(d[|d| - 1])
  }

  /** Digits with no leading zero, as PHP prints a positive integer. */
  predicate PositiveDigits(d: string) {
    |d| > 0 && AllDigits(d) && d[0] != '0'
  }

  /**
   * The integer a string stands for when used as an array key: `"0"`, or an
   * optional `-` followed by digits without a leading zero, within the
   * 64-bit range. `"-0"`, `"007"`, `"+1"`, `" 1"` and `""` stay strings.
   */
  function CanonicalInt(s: string): Option<int> {
    if s == "0" then Some(0)
    else if |s| > 0 && s[0] == '-' then
      if !PositiveDigits(s[1..]) then None
      else
        var n: int := DigitsValue(s[1..]);
        if -n >= MinInt then Some(-n) else None
    else if PositiveDigits(s) && DigitsValue(s) <= MaxInt then Some(DigitsValue(s))
    else None
  }

  /** The string PHP makes of a value before using it as a key; an array reads as `"Array"`. */
  function KeyText(v: Value): string {
    match v
    case Null => ""
    case Arr(_) => "Array"
    case _ => Text(v)
  }

  /** The array key a value becomes. */
  function ArrayKey(v: Value): Key {
    if v.Int? then IntKey(v.i)
    else
      var s := KeyText(v);
      match CanonicalInt(s)
      case Some(i) => IntKey(i)
      case None => StrKey(s)
  }

  /** The text of a key: an integer key reads as its decimal text. */
  function KeyName(k: Key): string {
    match k
    case IntKey(i) => Text(Int(i))
    case StrKey(s) => s
  }

  /** A positive number prints as digits with no leading zero that spell it back. */
  lemma {:induction false} NatTextValue(n: nat)
    ensures AllDigits(NatText(n)) && DigitsValue(NatText(n)) == n
    ensures n > 0 ==> NatText(n)[0] != '0'
    decreases n
  {
    var t := NatText(n);
    if n >= 10 {
      var p := NatText(n / 10);
      NatTextValue(n / 10);
      assert t == p + [Digit(n % 10)];
      assert t[..|t| - 1] == p;
    }
  }

  /** Digits without a leading zero spell a positive number. */
  lemma {:induction false} PositiveDigitsValue(d: string)
    requires PositiveDigits(d)
    ensures DigitsValue(d) >= 1
    decreases |d|
  {
    if |d| > 1 {
      var p := d[..|d| - 1];
      assert p[0] == d[0];
      PositiveDigitsValue(p);
    }
  }

  /** Digits without a leading zero are exactly how PHP prints the number they spell. */
  lemma {:induction false} DigitsText(d: string)
    requires PositiveDigits(d)
    ensures NatText(DigitsValue(d)) == d
    decreases |d|
  {
    var v := DigitsValue(d);
    var c := d[|d| - 1];
    if |d| == 1 {
      assert d[..|d| - 1] == [];
      assert DigitsValue(d[..|d| - 1]) == 0;
    } else {
      var p := d[..|d| - 1];
      assert p[0] == d[0];
      PositiveDigitsValue(p);
      DigitsText(p);
      assert v / 10 == DigitsValue(p) && v % 10 == DigitValue(c);
      assert NatText(v) == NatText(DigitsValue(p)) + [Digit(DigitValue(c))];
      assert d == p + [c];
    }
  }

  /** A string read as an integer key is the decimal text of that integer. */
  lemma CanonicalIntIsText(s: string, i: int)
    requires CanonicalInt(s) == Some(i)
    ensures MinInt <= i <= MaxInt && s == Text(Int(i))
  {
    if s != "0" {
      if s[0] == '-' {
        var d := s[1..];
        DigitsText(d);
        PositiveDigitsValue(d);
        assert s == "-" + d;
      } else {
        DigitsText(s);
        PositiveDigitsValue(s);
      }
    }
  }

  /** The decimal text of a 64-bit integer is read back as that integer. */
  lemma TextIsCanonicalInt(i: int)
    requires MinInt <= i <= MaxInt
    ensures CanonicalInt(Text(Int(i))) == Some(i)
  {
    var s := Text(Int(i));
    if i < 0 {
      NatTextValue(-i);
      assert s[1..] == NatText(-i);
    } else if i > 0 {
      NatTextValue(i);
    }
  }

  /** A string is an integer key exactly when it is the decimal text of a 64-bit integer. */
  lemma CanonicalIntText(s: string, i: int)
    ensures CanonicalInt(s) == Some(i) <==> MinInt <= i <= MaxInt && s == Text(Int(i))
  {
    if CanonicalInt(s) == Some(i) {
      CanonicalIntIsText(s, i);
    }
    if MinInt <= i <= MaxInt && s == Text(Int(i)) {
      TextIsCanonicalInt(i);
    }
  }

  /** Turning a string into a key loses nothing: the key's text is the string. */
  lemma StringKeyText(s: string)
    ensures KeyName(ArrayKey(Str(s))) == s
  {
    match CanonicalInt(s)
    case Some(i) => CanonicalIntText(s, i);
    case None =>
  }

  /** The text of a 64-bit integer, used as a key, is that integer. */
  lemma IntegerTextKey(i: int)
    requires MinInt <= i <= MaxInt
    ensures ArrayKey(Str(Text(Int(i)))) == IntKey(i)
  {
    CanonicalIntText(Text(Int(i)), i);
  }
}
