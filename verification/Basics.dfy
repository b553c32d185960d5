/** Small shared vocabulary: optional values and the string operations of
    JavaScript that the modelled code relies on. */
module Basics {

  datatype Option<+T> = None | Some(value: T)

  /** The characters `String.prototype.trim` removes: white space and line terminators. */
  predicate IsBlankChar(c: char) {
    || '\t' <= c <= '\r'
    || c == ' '
    || c in "\U{00A0}\U{1680}\U{2028}\U{2029}\U{202F}\U{205F}\U{3000}\U{FEFF}"
    || '\U{2000}' <= c <= '\U{200A}'
  }

  function TrimStart(s: string): string {
    if s != [] && IsBlankChar(s[0]) then TrimStart(s[1..]) else s
  }

  function TrimEnd(s: string): string {
    if s != [] && IsBlankChar(s[|s| - 1]) then TrimEnd(s[..|s| - 1]) else s
  }

  function Trim(s: string): string {
    TrimEnd(TrimStart(s))
  }

  /** True exactly when trimming leaves nothing. */
  predicate IsBlank(s: string) {
    forall i | 0 <= i < |s| :: IsBlankChar(s[i])
  }

  lemma {:induction false} TrimIsEmptyExactlyWhenBlank(s: string)
    ensures Trim(s) == "" <==> IsBlank(s)
  {
    TrimStartProperty(s);
    TrimEndProperty(TrimStart(s));
  }

  lemma {:induction false} TrimStartProperty(s: string)
    ensures TrimStart(s) == "" <==> IsBlank(s)
    ensures TrimStart(s) != "" ==> !IsBlankChar(TrimStart(s)[0])
  {
    if s != [] && IsBlankChar(s[0]) {
      TrimStartProperty(s[1..]);
      assert forall i | 1 <= i < |s| :: s[i] == s[1..][i - 1];
    }
  }

  lemma {:induction false} TrimEndProperty(s: string)
    ensures TrimEnd(s) == "" <==> IsBlank(s)
  {
    if s != [] && IsBlankChar(s[|s| - 1]) {
      TrimEndProperty(s[..|s| - 1]);
    }
  }

  lemma {:induction false} TrimStartSplits(s: string) returns (blank: string)
    ensures s == blank + TrimStart(s) && IsBlank(blank)
  {
    if s != [] && IsBlankChar(s[0]) {
      var more := TrimStartSplits(s[1..]);
      blank := [s[0]] + more;
      assert s == [s[0]] + s[1..];
    } else {
      blank := "";
    }
  }

  lemma {:induction false} TrimEndSplits(s: string) returns (blank: string)
    ensures s == TrimEnd(s) + blank && IsBlank(blank)
    ensures TrimEnd(s) != "" ==> !IsBlankChar(TrimEnd(s)[|TrimEnd(s)| - 1])
  {
    if s != [] && IsBlankChar(s[|s| - 1]) {
      var more := TrimEndSplits(s[..|s| - 1]);
      blank := more + [s[|s| - 1]];
      assert s == s[..|s| - 1] + [s[|s| - 1]];
    } else {
      blank := "";
    }
  }

  /** Trimming takes away blanks at both ends, all of them, and nothing else. */
  lemma TrimExactly(s: string) returns (before: string, after: string)
    ensures s == before + Trim(s) + after && IsBlank(before) && IsBlank(after)
    ensures Trim(s) != "" ==> !IsBlankChar(Trim(s)[0]) && !IsBlankChar(Trim(s)[|Trim(s)| - 1])
  {
    before := TrimStartSplits(s);
    after := TrimEndSplits(TrimStart(s));
    TrimStartProperty(s);
    assert before + Trim(s) + after == before + (Trim(s) + after);
    assert Trim(s) != "" ==> Trim(s)[0] == TrimStart(s)[0];
  }

  /** '0'..'9', then 'a'..'z'. */
  function Digit(d: nat): char
    requires d < 36
  {
    if d < 10 then (48 + d) as char else (87 + d) as char
  }

  /** The digits of `n` in the given base, most significant first. */
  function Numeral(n: nat, radix: nat): (s: string)
    requires radix == 10 || radix == 36
    ensures s != []
  {
    if n < radix then [Digit(n)]
    else
      QuotientShrinks(n, radix);
      Numeral(n / radix, radix) + [Digit(n % radix)]
  }

  lemma QuotientShrinks(n: nat, radix: nat)
    requires (radix == 10 || radix == 36) && radix <= n
    ensures 0 < n / radix < n && 0 <= n % radix < radix
  {
    assert if radix == 10 then 0 < n / 10 < n else 0 < n / 36 < n;
  }

  /** What a digit stands for. */
  function DigitValue(c: char): int {
    if '0' <= c <= '9' then c as int - '0' as int else c as int - 'a' as int + 10
  }

  function ValueOf(s: string, radix: nat): int {
    if s == "" then 0 else radix * ValueOf(s[..|s| - 1], radix) + DigitValue(s[|s| - 1])
  }

  /** Read digit by digit, a numeral gives its number back; its digits are '0' to '9' and
      small letters, and it does not begin with a needless zero. */
  lemma {:induction false} NumeralExactly(n: nat, radix: nat)
    requires radix == 10 || radix == 36
    ensures ValueOf(Numeral(n, radix), radix) == n
    ensures forall c | c in Numeral(n, radix) :: '0' <= c <= '9' || (radix == 36 && 'a' <= c <= 'z')
    ensures n > 0 ==> Numeral(n, radix)[0] != '0'
  {
    var s := Numeral(n, radix);
    if n < radix {
      assert s[..0] == "" && ValueOf("", radix) == 0;
      assert radix * ValueOf(s[..0], radix) == 0;
    } else {
      QuotientShrinks(n, radix);
      NumeralExactly(n / radix, radix);
      assert s[..|s| - 1] == Numeral(n / radix, radix) && s[|s| - 1] == Digit(n % radix);
      assert n == radix * (n / radix) + n % radix;
    }
  }

  /** Different numbers have different numerals. */
  lemma NumeralInjective(m: nat, n: nat, radix: nat)
    requires radix == 10 || radix == 36
    requires Numeral(m, radix) == Numeral(n, radix)
    ensures m == n
  {
    NumeralExactly(m, radix);
    NumeralExactly(n, radix);
  }

  function Decimal(n: nat): string {
    Numeral(n, 10)
  }

  /** `parts.join(separator)` */
  function Join(parts: seq<string>, separator: string): string {
    if parts == [] then ""
    else if |parts| == 1 then parts[0]
    else parts[0] + separator + Join(parts[1..], separator)
  }
}
