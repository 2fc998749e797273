/** Reading a typed amount: grouping or decimal separator, and magnitude words. */
module ParseAmount {
  import opened Decimals
  import opened Sequences

  // ----- Character classes -----

  predicate IsDigit(c: char) {
    '0' <= c <= '9'
  }

  predicate IsNumberChar(c: char) {
    IsDigit(c) || c == '.' || c == ','
  }

  /** What `trim` and `\s` take as white space. */
  predicate IsSpace(c: char) {
    || c == ' ' || '\t' <= c <= '\r' || c == '\U{A0}' || c == '\U{1680}' || '\U{2000}' <= c <= '\U{200A}'
    || c == '\U{2028}' || c == '\U{2029}' || c == '\U{202F}' || c == '\U{205F}' || c == '\U{3000}' || c == '\U{FEFF}'
  }

  /** The letters a magnitude word may have: Latin, accented from a-grave to y-tilde, oku and man. */
  predicate IsLetter(c: char) {
    'a' <= c <= 'z' || 'A' <= c <= 'Z' || '\U{E0}' <= c <= '\U{1EF9}' || c == '\U{5104}' || c == '\U{4E07}'
  }

  // ----- String operations -----

  function IndexOf(s: string, c: char): (i: nat)
    requires c in s
    ensures i < |s| && s[i] == c && forall j :: 0 <= j < i ==> s[j] != c
  {
    if s[0] == c then 0 else 1 + IndexOf(s[1..], c)
  }

  function LastIndexOf(s: string, c: char): (i: int)
    ensures -1 <= i < |s| && (i >= 0 ==> s[i] == c)
    ensures forall j :: i < j < |s| ==> s[j] != c
  {
    if s == "" then -1
    else if s[|s| - 1] == c then |s| - 1
    else LastIndexOf(s[..|s| - 1], c)
  }

  function Split(s: string, c: char): (parts: seq<string>)
    ensures |parts| >= 1
  {
    if c in s then [s[..IndexOf(s, c)]] + Split(s[IndexOf(s, c) + 1..], c) else [s]
  }

  function Joined(parts: seq<string>): string {
    if parts == [] then "" else parts[0] + Joined(parts[1..])
  }

  function ReplaceFirst(s: string, c: char, d: char): (r: string)
    ensures |r| == |s|
  {
    if c in s then s[IndexOf(s, c) := d] else s
  }

  function PrefixLength(p: char -> bool, s: string): (n: nat)
    ensures n <= |s| && forall i :: 0 <= i < n ==> p(s[i])
    ensures n < |s| ==> !p(s[n])
  {
    if s != "" && p(s[0]) then 1 + PrefixLength(p, s[1..]) else 0
  }

  function TrimEnd(s: string): string {
    if s != "" && IsSpace(s[|s| - 1]) then TrimEnd(s[..|s| - 1]) else s
  }

  // ----- The parser -----

  function Lower(c: char): char {
    if 'A' <= c <= 'Z' then (c as int + 32) as char
    else if c == '\U{1EF6}' then '\U{1EF7}'
    else if c == '\U{1EC6}' then '\U{1EC7}'
    else c
  }

  /** The magnitude words, in lower case, in the order they are tried. */
  const SHORTHAND_MULTIPLIERS: seq<(seq<string>, real)> :=
    [ (["ty", "t\U{1EF7}", "billion", "bn", "b"], 1000000000.0),
      (["tr", "trieu", "tri\U{1EC7}u", "million", "mil", "m"], 1000000.0),
      (["k", "nghin", "ngh\U{EC}n", "ngan", "ng\U{E0}n", "thousand"], 1000.0),
      (["oku", "\U{5104}"], 100000000.0),
      (["man", "\U{4E07}"], 10000.0) ]

  function FindMultiplier(word: string, table: seq<(seq<string>, real)>): Option<real> {
    if table == [] then None
    else if word in table[0].0 then Some(table[0].1)
    else FindMultiplier(word, table[1..])
  }

  /** The multiplier a suffix stands for; no suffix counts once. */
  function Multiplier(suffix: string): Option<real> {
    if suffix == "" then Some(1.0) else FindMultiplier(Map(Lower, suffix), SHORTHAND_MULTIPLIERS)
  }

  /** Of the two separators, the one that stands last. */
  function DecimalChar(raw: string): char {
    if LastIndexOf(raw, '.') > LastIndexOf(raw, ',') then '.' else ','
  }

  /** Rewrites a grouped number with "." as its only separator, a decimal one. */
  function NormalizeGroupedNumber(raw: string): string {
    if '.' in raw && ',' in raw then
      var decimal := DecimalChar(raw);
      var group := if decimal == '.' then ',' else '.';
      ReplaceFirst(Joined(Split(raw, group)), decimal, '.')
    else if '.' in raw then Ungrouped(raw, '.')
    else if ',' in raw then Ungrouped(raw, ',')
    else raw
  }

  /** With one kind of separator: a decimal if it stands once before at most two digits, grouping otherwise. */
  function Ungrouped(raw: string, sep: char): string {
    var parts := Split(raw, sep);
    if |parts| == 2 && |parts[1]| <= 2 then ReplaceFirst(raw, sep, '.') else Joined(parts)
  }

  predicate AllDigits(s: string) {
    forall i :: 0 <= i < |s| ==> IsDigit(s[i])
  }

  function DigitValue(c: char): (d: nat)
    requires IsDigit(c)
    ensures d <= 9
  {
    (c as int) - ('0' as int)
  }

  function Digits(s: string): nat
    requires AllDigits(s)
  {
    if s == "" then 0 else Digits(s[..|s| - 1]) * 10 + DigitValue(s[|s| - 1])
  }

  function Power(k: nat): (p: nat)
    ensures p >= 1
  {
    if k == 0 then 1 else 10 * Power(k - 1)
  }

  /** The value of digits around a decimal point. */
  function DecimalValue(whole: string, fraction: string): real
    requires AllDigits(whole) && AllDigits(fraction)
  {
    Digits(whole) as real + Digits(fraction) as real / Power(|fraction|) as real
  }

  /** `Number` on strings of digits and separators: none where it gives NaN, zero for the empty string. */
  function Number(s: string): Option<real> {
    if AllDigits(s) then Some(Digits(s) as real)
    else if '.' !in s then None
    else
      var i := IndexOf(s, '.');
      if s == "." || !AllDigits(s[..i]) || !AllDigits(s[i + 1..]) then None
      else Some(DecimalValue(s[..i], s[i + 1..]))
  }

  function WithoutSpace(s: string): string {
    s[PrefixLength(IsSpace, s)..]
  }

  function Trim(s: string): string {
    TrimEnd(WithoutSpace(s))
  }

  /** The number and the word behind it that the expression `^([\d.,]+)\s*([a-zA-Z...]*)$` captures. */
  datatype Pieces = Pieces(number: string, suffix: string)

  function Match(s: string): Option<Pieces> {
    var n := PrefixLength(IsNumberChar, s);
    var suffix := WithoutSpace(s[n..]);
    if n == 0 || PrefixLength(IsLetter, suffix) < |suffix| then None else Some(Pieces(s[..n], suffix))
  }

  function Amount(number: string, suffix: string): Option<real> {
    Times(Number(NormalizeGroupedNumber(number)), Multiplier(suffix))
  }

  function Times(value: Option<real>, multiplier: Option<real>): Option<real> {
    if value.None? || multiplier.None? then None else Some(Product(value.value, multiplier.value))
  }

  function Product(x: real, y: real): real {
    x * y
  }

  /** What the captured pieces are read as. */
  function Read(pieces: Option<Pieces>): Option<real> {
    if pieces.None? then None else Amount(pieces.value.number, pieces.value.suffix)
  }

  function ParseFlexibleAmount(raw: string): Option<real> {
    Read(Match(Trim(raw)))
  }

  // ----- Dots and commas are interchangeable -----

  function SwapChar(c: char): char {
    if c == '.' then ',' else if c == ',' then '.' else c
  }

  function Swap(s: string): string {
    seq(|s|, i requires 0 <= i < |s| => SwapChar(s[i]))
  }

  lemma SwapTake(s: string, i: nat)
    requires i <= |s|
    ensures Swap(s[..i]) == Swap(s)[..i]
  {
  }

  lemma SwapDrop(s: string, i: nat)
    requires i <= |s|
    ensures Swap(s[i..]) == Swap(s)[i..]
  {
  }

  lemma SwapAppend(s: string, t: string)
    ensures Swap(s + t) == Swap(s) + Swap(t)
  {
  }

  lemma SwapIn(s: string, c: char)
    ensures SwapChar(c) in Swap(s) <==> c in s
  {
    forall i | 0 <= i < |s| ensures Swap(s)[i] == SwapChar(c) <==> s[i] == c {}
    if c in s {
      var i :| 0 <= i < |s| && s[i] == c;
      assert Swap(s)[i] == SwapChar(c);
    }
  }

  lemma SwapIndexOf(s: string, c: char)
    requires c in s && SwapChar(c) in Swap(s)
    ensures IndexOf(Swap(s), SwapChar(c)) == IndexOf(s, c)
  {
    var i, j := IndexOf(s, c), IndexOf(Swap(s), SwapChar(c));
    assert Swap(s)[i] == SwapChar(c);
    assert s[j] == c;
  }

  lemma SwapLastIndexOf(s: string, c: char)
    ensures LastIndexOf(Swap(s), SwapChar(c)) == LastIndexOf(s, c)
  {
    var i, j := LastIndexOf(s, c), LastIndexOf(Swap(s), SwapChar(c));
    if i >= 0 {
      assert Swap(s)[i] == SwapChar(c);
    }
    if j >= 0 {
      assert s[j] == c;
    }
  }

  lemma SplitUnfold(s: string, c: char)
    requires c in s
    ensures Split(s, c) == [s[..IndexOf(s, c)]] + Split(s[IndexOf(s, c) + 1..], c)
  {
  }

  lemma SwapAroundSeparator(s: string, c: char)
    requires c in s
    ensures SwapChar(c) in Swap(s)
    ensures var i := IndexOf(s, c);
            && Swap(s)[..IndexOf(Swap(s), SwapChar(c))] == Swap(s[..i])
            && Swap(s)[IndexOf(Swap(s), SwapChar(c)) + 1..] == Swap(s[i + 1..])
  {
    SwapIn(s, c);
    SwapIndexOf(s, c);
    SwapTake(s, IndexOf(s, c));
    SwapDrop(s, IndexOf(s, c) + 1);
  }

  lemma {:induction false} SwapSplit(s: string, c: char)
    ensures Split(Swap(s), SwapChar(c)) == Map(Swap, Split(s, c))
    decreases |s|
  {
    SwapIn(s, c);
    if c in s {
      var rest := s[IndexOf(s, c) + 1..];
      SwapAroundSeparator(s, c);
      SplitUnfold(s, c);
      SplitUnfold(Swap(s), SwapChar(c));
      SwapSplit(rest, c);
    }
  }

  lemma {:induction false} SwapJoined(parts: seq<string>)
    ensures Joined(Map(Swap, parts)) == Swap(Joined(parts))
  {
    if parts != [] {
      SwapJoined(parts[1..]);
      SwapAppend(parts[0], Joined(parts[1..]));
      assert Map(Swap, parts)[1..] == Map(Swap, parts[1..]);
    }
  }

  lemma SwapPlain(s: string)
    requires '.' !in s && ',' !in s
    ensures Swap(s) == s
  {
  }

  /** Swapping the separators of a number string keeps the value it is read as. */
  lemma SwapNumber(raw: string)
    ensures Number(NormalizeGroupedNumber(Swap(raw))) == Number(NormalizeGroupedNumber(raw))
  {
    SwapIn(raw, '.');
    SwapIn(raw, ',');
    if '.' in raw && ',' in raw {
      SwapBoth(raw);
    } else if '.' in raw {
      SwapUngrouped(raw, '.');
    } else if ',' in raw {
      SwapUngrouped(raw, ',');
    } else {
      SwapPlain(raw);
    }
  }

  /** Joining the parts leaves out the separator. */
  lemma {:induction false} JoinedLacks(s: string, sep: char, c: char)
    ensures sep !in Joined(Split(s, sep))
    ensures c != sep ==> (c in Joined(Split(s, sep)) <==> c in s)
    decreases |s|
  {
    if sep in s {
      var i := IndexOf(s, sep);
      JoinedLacks(s[i + 1..], sep, c);
      assert s == s[..i] + [sep] + s[i + 1..];
      assert Joined(Split(s, sep)) == s[..i] + Joined(Split(s[i + 1..], sep));
    }
  }

  lemma SwapUngrouped(raw: string, sep: char)
    requires sep in {'.', ','} && sep in raw && SwapChar(sep) !in raw
    ensures Ungrouped(Swap(raw), SwapChar(sep)) == Ungrouped(raw, sep)
  {
    SwapSplit(raw, sep);
    SwapJoined(Split(raw, sep));
    JoinedLacks(raw, sep, SwapChar(sep));
    SwapPlain(Joined(Split(raw, sep)));
    SwapIn(raw, sep);
    SwapIndexOf(raw, sep);
    var parts := Split(raw, sep);
    if |parts| == 2 && |parts[1]| <= 2 {
      OneSeparator(raw, sep);
      var i := IndexOf(raw, sep);
      assert Swap(raw)[i := '.'] == raw[i := '.'];
    }
  }

  /** Two parts mean one separator. */
  lemma OneSeparator(s: string, c: char)
    requires |Split(s, c)| == 2
    ensures c in s && forall j :: 0 <= j < |s| && s[j] == c ==> j == IndexOf(s, c)
  {
    var i := IndexOf(s, c);
    assert c !in s[i + 1..];
    forall j | i < j < |s| ensures s[j] != c {
      assert s[i + 1..][j - i - 1] == s[j];
    }
  }

  lemma SwapBoth(raw: string)
    requires '.' in raw && ',' in raw
    ensures Number(NormalizeGroupedNumber(Swap(raw))) == Number(NormalizeGroupedNumber(raw))
  {
    SwapDecimalChar(raw);
    SwapIn(raw, '.');
    SwapIn(raw, ',');
    SwapGroups(raw, DecimalChar(raw));
  }

  lemma SwapDecimalChar(raw: string)
    requires '.' in raw && ',' in raw
    ensures DecimalChar(Swap(raw)) == SwapChar(DecimalChar(raw))
  {
    SwapLastIndexOf(raw, '.');
    SwapLastIndexOf(raw, ',');
    LastIndexFound(raw, '.');
    LastIndexFound(raw, ',');
  }

  lemma SwapGroups(raw: string, decimal: char)
    requires decimal in {'.', ','} && '.' in raw && ',' in raw
    ensures Number(ReplaceFirst(Joined(Split(Swap(raw), decimal)), SwapChar(decimal), '.'))
         == Number(ReplaceFirst(Joined(Split(raw, SwapChar(decimal))), decimal, '.'))
  {
    var group := SwapChar(decimal);
    SwapSplit(raw, group);
    SwapJoined(Split(raw, group));
    JoinedLacks(raw, group, decimal);
    SwapDecimal(Joined(Split(raw, group)), decimal);
  }

  lemma LastIndexFound(s: string, c: char)
    requires c in s
    ensures LastIndexOf(s, c) >= 0
  {
    var i :| 0 <= i < |s| && s[i] == c;
  }

  /** Without group separators only the first decimal separator matters: a second one is no number either way. */
  lemma SwapDecimal(s: string, decimal: char)
    requires decimal in {'.', ','} && decimal in s && SwapChar(decimal) !in s
    ensures Number(ReplaceFirst(Swap(s), SwapChar(decimal), '.')) == Number(ReplaceFirst(s, decimal, '.'))
  {
    var i := IndexOf(s, decimal);
    if j :| i < j < |s| && s[j] == decimal {
      SwapSecondDecimal(s, decimal, j);
    } else {
      SwapOnlyDecimal(s, decimal);
    }
  }

  lemma SwapOnlyDecimal(s: string, decimal: char)
    requires decimal in {'.', ','} && decimal in s && SwapChar(decimal) !in s
    requires forall j :: IndexOf(s, decimal) < j < |s| ==> s[j] != decimal
    ensures ReplaceFirst(Swap(s), SwapChar(decimal), '.') == ReplaceFirst(s, decimal, '.')
  {
    SwapIn(s, decimal);
    SwapIndexOf(s, decimal);
    var i := IndexOf(s, decimal);
    assert Swap(s)[i := '.'] == s[i := '.'];
  }

  lemma SwapSecondDecimal(s: string, decimal: char, j: nat)
    requires decimal in {'.', ','} && decimal in s
    requires IndexOf(s, decimal) < j < |s| && s[j] == decimal
    ensures Number(ReplaceFirst(Swap(s), SwapChar(decimal), '.')) == Number(ReplaceFirst(s, decimal, '.')) == None
  {
    SwapIn(s, decimal);
    SwapIndexOf(s, decimal);
    var i := IndexOf(s, decimal);
    SecondSeparatorIsNoNumber(s[i := '.'], i, j);
    SecondSeparatorIsNoNumber(Swap(s)[i := '.'], i, j);
  }

  lemma SecondSeparatorIsNoNumber(s: string, i: nat, j: nat)
    requires i < j < |s| && s[i] == '.' && s[j] in {'.', ','}
    ensures Number(s).None?
  {
    assert !IsDigit(s[i]) && !IsDigit(s[j]);
    var first := IndexOf(s, '.');
    assert s[first + 1..][j - first - 1] == s[j];
  }

  lemma {:induction false} SwapPrefix(p: char -> bool, s: string)
    requires forall c :: p(SwapChar(c)) == p(c)
    ensures PrefixLength(p, Swap(s)) == PrefixLength(p, s)
  {
    if s != "" {
      assert Swap(s)[1..] == Swap(s[1..]);
      SwapPrefix(p, s[1..]);
    }
  }

  lemma {:induction false} SwapTrimEnd(s: string)
    ensures TrimEnd(Swap(s)) == Swap(TrimEnd(s))
    decreases |s|
  {
    if s != "" {
      assert Swap(s)[..|s| - 1] == Swap(s[..|s| - 1]);
      SwapTrimEnd(s[..|s| - 1]);
    }
  }

  lemma SwapWithoutSpace(s: string)
    ensures WithoutSpace(Swap(s)) == Swap(WithoutSpace(s))
  {
    SwapPrefix(IsSpace, s);
    SwapDrop(s, PrefixLength(IsSpace, s));
  }

  lemma LettersHaveNoSeparator(s: string)
    requires forall i :: 0 <= i < |s| ==> IsLetter(s[i])
    ensures Swap(s) == s
  {
    forall i | 0 <= i < |s| ensures SwapChar(s[i]) == s[i] {
      assert IsLetter(s[i]);
    }
  }

  lemma SwapLetters(suffix: string)
    ensures PrefixLength(IsLetter, Swap(suffix)) == PrefixLength(IsLetter, suffix)
    ensures PrefixLength(IsLetter, suffix) == |suffix| ==> Swap(suffix) == suffix
  {
    SwapPrefix(IsLetter, suffix);
    if PrefixLength(IsLetter, suffix) == |suffix| {
      LettersHaveNoSeparator(suffix);
    }
  }

  lemma SwapNumberPart(s: string)
    ensures var n := PrefixLength(IsNumberChar, s);
            && PrefixLength(IsNumberChar, Swap(s)) == n
            && Swap(s)[..n] == Swap(s[..n]) && Swap(s)[n..] == Swap(s[n..])
  {
    SwapPrefix(IsNumberChar, s);
  }

  lemma SwapMatch(s: string)
    ensures Match(Swap(s)).None? <==> Match(s).None?
    ensures Match(s).Some? ==> Match(Swap(s)) == Some(Pieces(Swap(Match(s).value.number), Match(s).value.suffix))
  {
    var rest := s[PrefixLength(IsNumberChar, s)..];
    SwapNumberPart(s);
    SwapWithoutSpace(rest);
    SwapLetters(WithoutSpace(rest));
  }

  lemma SwapPieces(before: Option<Pieces>, after: Option<Pieces>)
    requires before.None? <==> after.None?
    requires before.Some? ==> after == Some(Pieces(Swap(before.value.number), before.value.suffix))
    ensures Read(after) == Read(before)
  {
    if before.Some? {
      SwapNumber(before.value.number);
    }
  }

  lemma SwapTrim(raw: string)
    ensures Trim(Swap(raw)) == Swap(Trim(raw))
  {
    SwapWithoutSpace(raw);
    SwapTrimEnd(WithoutSpace(raw));
  }

  /** Exchanging every dot and comma of any input never changes what it is read as. */
  lemma DotsAndCommasAreInterchangeable(raw: string)
    ensures ParseFlexibleAmount(Swap(raw)) == ParseFlexibleAmount(raw)
  {
    SwapTrim(raw);
    SwapMatch(Trim(raw));
    SwapPieces(Match(Trim(raw)), Match(Swap(Trim(raw))));
  }

  // ----- Printed amounts read back -----

  function Digit(d: nat): (c: char)
    requires d <= 9
    ensures IsDigit(c) && DigitValue(c) == d
  {
    (('0' as int) + d) as char
  }

  function Show(n: nat): string {
    if n < 10 then [Digit(n)] else Show(n / 10) + [Digit(n % 10)]
  }

  function ThreeDigits(n: nat): string
    requires n < 1000
  {
    [Digit(n / 100), Digit(n / 10 % 10), Digit(n % 10)]
  }

  /** Digits in groups of three. */
  function Grouped(n: nat, group: char): string {
    if n < 1000 then Show(n) else Grouped(n / 1000, group) + [group] + ThreeDigits(n % 1000)
  }

  predicate IsSeparator(c: char) {
    c == '.' || c == ','
  }

  /** Grouped digits and a fraction after the other separator, as in 1.234.567,89 or 1,234,567.89. */
  function Printed(n: nat, fraction: string, group: char): string {
    Grouped(n, group) + if fraction == "" then "" else [SwapChar(group)] + fraction
  }

  function PrintedValue(n: nat, fraction: string): real
    requires AllDigits(fraction)
  {
    n as real + Digits(fraction) as real / Power(|fraction|) as real
  }

  lemma {:induction false} ShowIsDecimal(n: nat)
    ensures AllDigits(Show(n)) && Show(n) != "" && Digits(Show(n)) == n
  {
    if n >= 10 {
      ShowIsDecimal(n / 10);
      assert Show(n)[..|Show(n)| - 1] == Show(n / 10);
    }
  }

  lemma DigitsOneMore(a: string, c: char)
    requires AllDigits(a) && IsDigit(c)
    ensures AllDigits(a + [c]) && Digits(a + [c]) == Digits(a) * 10 + DigitValue(c)
  {
    assert (a + [c])[..|a|] == a;
  }

  lemma Shift(x: nat, p: nat, y: nat, d: nat)
    ensures (x * p + y) * 10 + d == x * (10 * p) + (y * 10 + d)
  {
  }

  lemma {:induction false} DigitsAppend(a: string, b: string)
    requires AllDigits(a) && AllDigits(b)
    ensures AllDigits(a + b) && Digits(a + b) == Digits(a) * Power(|b|) + Digits(b)
    decreases |b|, 1
  {
    if b == "" {
      assert a + b == a;
    } else {
      DigitsAppendOneMore(a, b[..|b| - 1], b[|b| - 1]);
      assert b == b[..|b| - 1] + [b[|b| - 1]];
    }
  }

  lemma DigitsAppendOneMore(a: string, init: string, last: char)
    requires AllDigits(a) && AllDigits(init) && IsDigit(last)
    ensures AllDigits(a + (init + [last]))
    ensures Digits(a + (init + [last])) == Digits(a) * Power(|init + [last]|) + Digits(init + [last])
    decreases |init| + 1, 0
  {
    DigitsAppend(a, init);
    DigitsOneMore(a + init, last);
    DigitsOneMore(init, last);
    assert a + (init + [last]) == (a + init) + [last];
    Shift(Digits(a), Power(|init|), Digits(init), DigitValue(last));
  }

  lemma DigitsOfThree(a: char, b: char, c: char)
    requires IsDigit(a) && IsDigit(b) && IsDigit(c)
    ensures AllDigits([a, b, c]) && Digits([a, b, c]) == (DigitValue(a) * 10 + DigitValue(b)) * 10 + DigitValue(c)
  {
    DigitsOneMore("", a);
    DigitsOneMore([a], b);
    DigitsOneMore([a, b], c);
    assert "" + [a] == [a] && [a] + [b] == [a, b] && [a, b] + [c] == [a, b, c];
  }

  lemma ThreeDigitsValue(n: nat)
    requires n < 1000
    ensures AllDigits(ThreeDigits(n)) && Digits(ThreeDigits(n)) == n
  {
    DigitsOfThree(Digit(n / 100), Digit(n / 10 % 10), Digit(n % 10));
    assert n / 100 == n / 10 / 10;
  }

  lemma JoinedSplitNone(s: string, c: char)
    requires c !in s
    ensures Split(s, c) == [s] && Joined(Split(s, c)) == s
  {
    assert [s][1..] == [] && s + "" == s;
  }

  lemma JoinedSplitUnfold(s: string, c: char)
    requires c in s
    ensures Joined(Split(s, c)) == s[..IndexOf(s, c)] + Joined(Split(s[IndexOf(s, c) + 1..], c))
  {
    var head, parts := s[..IndexOf(s, c)], Split(s[IndexOf(s, c) + 1..], c);
    assert ([head] + parts)[1..] == parts;
  }

  lemma TailWithoutHead(a: string, t: string, c: char)
    requires c !in a && c !in t
    ensures c !in a + t
  {
  }

  /** A tail without the separator stays whole at the end of the last part. */
  lemma {:induction false} SplitTail(a: string, t: string, c: char)
    requires c !in t
    ensures Joined(Split(a + t, c)) == Joined(Split(a, c)) + t
    decreases |a|
  {
    if c in a {
      SplitHead(a, t, c);
      JoinedSplitUnfold(a, c);
      JoinedSplitUnfold(a + t, c);
      var i := IndexOf(a, c);
      SplitTail(a[i + 1..], t, c);
      AppendAssociative(a[..i], Joined(Split(a[i + 1..], c)), t);
    } else {
      TailWithoutHead(a, t, c);
      JoinedSplitNone(a, c);
      JoinedSplitNone(a + t, c);
    }
  }

  lemma SplitHead(a: string, t: string, c: char)
    requires c in a
    ensures c in a + t && IndexOf(a + t, c) == IndexOf(a, c)
    ensures (a + t)[..IndexOf(a, c)] == a[..IndexOf(a, c)] && (a + t)[IndexOf(a, c) + 1..] == a[IndexOf(a, c) + 1..] + t
    ensures Split(a + t, c) == [a[..IndexOf(a, c)]] + Split(a[IndexOf(a, c) + 1..] + t, c)
  {
    var i := IndexOf(a, c);
    assert (a + t)[i] == c;
    var k := IndexOf(a + t, c);
    assert k <= i;
    assert a[k] == c;
    assert (a + t)[..i] == a[..i] && (a + t)[i + 1..] == a[i + 1..] + t;
  }

  lemma FirstSeparator(a: string, b: string, c: char)
    requires c !in a
    ensures var s := a + ([c] + b);
            c in s && IndexOf(s, c) == |a| && s[..|a|] == a && s[|a| + 1..] == b
  {
    var s := a + ([c] + b);
    assert s[|a|] == c;
    assert forall j :: 0 <= j < |a| ==> s[j] == a[j];
  }

  /** A separator and a last part without it add one part. */
  lemma {:induction false} SplitLast(a: string, b: string, c: char)
    requires c !in b
    ensures Split(a + ([c] + b), c) == Split(a, c) + [b]
    decreases |a|
  {
    if c in a {
      SplitHead(a, [c] + b, c);
      var i := IndexOf(a, c);
      SplitLast(a[i + 1..], b, c);
      AppendAssociative([a[..i]], Split(a[i + 1..], c), [b]);
    } else {
      FirstSeparator(a, b, c);
      assert Split(b, c) == [b];
    }
  }

  lemma {:induction false} JoinedAppend(parts: seq<string>, b: string)
    ensures Joined(parts + [b]) == Joined(parts) + b
  {
    if parts == [] {
      assert [b][1..] == [] && b + "" == b;
    } else {
      JoinedAppend(parts[1..], b);
      assert (parts + [b])[1..] == parts[1..] + [b];
    }
  }

  lemma NoSeparatorInDigits(s: string, c: char)
    requires AllDigits(s) && IsSeparator(c)
    ensures c !in s
  {
  }

  /** What grouped digits consist of: the digits of n once joined, and a last group of three if there are groups. */
  ghost predicate GroupsOf(s: string, n: nat, g: char) {
    var parts := Split(s, g);
    && AllDigits(Joined(parts)) && Joined(parts) != "" && Digits(Joined(parts)) == n
    && (n < 1000 ==> s == Joined(parts))
    && (n >= 1000 ==> g in s && |parts| >= 2 && |parts[|parts| - 1]| == 3)
  }

  lemma SplitOneMoreGroup(head: string, three: string, g: char)
    requires g !in three
    ensures Split(head + [g] + three, g) == Split(head, g) + [three]
    ensures Joined(Split(head + [g] + three, g)) == Joined(Split(head, g)) + three
  {
    assert head + [g] + three == head + ([g] + three);
    SplitLast(head, three, g);
    JoinedAppend(Split(head, g), three);
  }

  lemma ThousandTimes(digits: string, three: string)
    requires AllDigits(digits) && AllDigits(three) && |three| == 3
    ensures AllDigits(digits + three) && Digits(digits + three) == Digits(digits) * 1000 + Digits(three)
  {
    DigitsAppend(digits, three);
    assert Power(3) == 1000;
  }

  lemma OneMoreGroup(head: string, n: nat, three: string, low: nat, g: char)
    requires GroupsOf(head, n, g) && n >= 1 && g !in three
    requires AllDigits(three) && |three| == 3 && Digits(three) == low < 1000
    ensures GroupsOf(head + [g] + three, n * 1000 + low, g)
  {
    SplitOneMoreGroup(head, three, g);
    ThousandTimes(Joined(Split(head, g)), three);
    assert (head + [g] + three)[|head|] == g;
  }

  lemma OneGroup(n: nat, s: string, g: char)
    requires IsSeparator(g) && n < 1000 && AllDigits(s) && s != "" && Digits(s) == n
    ensures GroupsOf(s, n, g)
  {
    NoSeparatorInDigits(s, g);
    JoinedSplitNone(s, g);
  }

  lemma GroupStep(head: string, n: nat, g: char)
    requires IsSeparator(g) && n >= 1000 && GroupsOf(head, n / 1000, g)
    ensures GroupsOf(head + [g] + ThreeDigits(n % 1000), n, g)
  {
    var three := ThreeDigits(n % 1000);
    ThreeDigitsValue(n % 1000);
    NoSeparatorInDigits(three, g);
    OneMoreGroup(head, n / 1000, three, n % 1000, g);
  }

  lemma {:induction false} GroupedParts(n: nat, g: char)
    requires IsSeparator(g)
    ensures GroupsOf(Grouped(n, g), n, g)
  {
    if n < 1000 {
      ShowIsDecimal(n);
      OneGroup(n, Show(n), g);
    } else {
      GroupedParts(n / 1000, g);
      GroupStep(Grouped(n / 1000, g), n, g);
    }
  }

  lemma {:induction false} GroupedCharacters(n: nat, g: char)
    ensures var s := Grouped(n, g); s != "" && forall i :: 0 <= i < |s| ==> IsDigit(s[i]) || s[i] == g
    ensures IsDigit(Grouped(n, g)[0]) && IsDigit(Grouped(n, g)[|Grouped(n, g)| - 1])
  {
    if n < 1000 {
      ShowIsDecimal(n);
    } else {
      GroupedCharacters(n / 1000, g);
      ThreeDigitsValue(n % 1000);
    }
  }

  lemma NumberOfDecimal(whole: string, fraction: string)
    requires AllDigits(whole) && AllDigits(fraction) && whole + fraction != ""
    ensures Number(whole + ['.'] + fraction) == Some(DecimalValue(whole, fraction))
  {
    var s := whole + ['.'] + fraction;
    assert s[|whole|] == '.' && !IsDigit(s[|whole|]);
    assert forall j :: 0 <= j < |whole| ==> s[j] == whole[j];
    assert IndexOf(s, '.') == |whole|;
    assert s[..|whole|] == whole && s[|whole| + 1..] == fraction;
  }

  lemma ReplaceSeparator(whole: string, fraction: string, d: char)
    requires d !in whole
    ensures ReplaceFirst(whole + [d] + fraction, d, '.') == whole + ['.'] + fraction
  {
    var s := whole + [d] + fraction;
    assert s[|whole|] == d;
    assert forall j :: 0 <= j < |whole| ==> s[j] == whole[j];
    assert IndexOf(s, d) == |whole|;
  }

  lemma MixedReadsBack(raw: string, digits: string, fraction: string, d: char)
    requires IsSeparator(d) && '.' in raw && ',' in raw && DecimalChar(raw) == d
    requires AllDigits(digits) && AllDigits(fraction) && digits != ""
    requires Joined(Split(raw, SwapChar(d))) == digits + [d] + fraction
    ensures Number(NormalizeGroupedNumber(raw)) == Some(DecimalValue(digits, fraction))
  {
    NoSeparatorInDigits(digits, d);
    ReplaceSeparator(digits, fraction, d);
    NumberOfDecimal(digits, fraction);
  }

  lemma JoinedWithFraction(s: string, fraction: string, g: char)
    requires IsSeparator(g) && AllDigits(fraction)
    ensures Joined(Split(s + [SwapChar(g)] + fraction, g)) == Joined(Split(s, g)) + [SwapChar(g)] + fraction
  {
    var d := SwapChar(g);
    NoSeparatorInDigits(fraction, g);
    SplitTail(s, [d] + fraction, g);
    assert s + [d] + fraction == s + ([d] + fraction);
    assert Joined(Split(s, g)) + ([d] + fraction) == Joined(Split(s, g)) + [d] + fraction;
  }

  lemma GroupsWithFraction(raw: string, s: string, digits: string, fraction: string, g: char)
    requires IsSeparator(g) && AllDigits(fraction) && g in s && raw == s + [SwapChar(g)] + fraction
    requires digits == Joined(Split(s, g)) && AllDigits(digits) && digits != ""
    ensures Number(NormalizeGroupedNumber(raw)) == Some(DecimalValue(digits, fraction))
  {
    HasBoth(s, fraction, g);
    LastSeparator(s, fraction, g);
    JoinedWithFraction(s, fraction, g);
    MixedReadsBack(raw, digits, fraction, SwapChar(g));
  }

  /** Groups and a fraction: the separator standing last is the decimal one. */
  lemma GroupedDecimalReadsBack(s: string, n: nat, fraction: string, g: char, raw: string)
    requires IsSeparator(g) && AllDigits(fraction) && n >= 1000 && GroupsOf(s, n, g)
    requires raw == s + [SwapChar(g)] + fraction
    ensures Number(NormalizeGroupedNumber(raw)) == Some(PrintedValue(n, fraction))
  {
    var digits := Joined(Split(s, g));
    GroupsWithFraction(raw, s, digits, fraction, g);
    SameValue(digits, n, fraction);
  }

  lemma SameValue(digits: string, n: nat, fraction: string)
    requires AllDigits(digits) && AllDigits(fraction) && Digits(digits) == n
    ensures DecimalValue(digits, fraction) == PrintedValue(n, fraction)
  {
  }

  lemma HasBoth(s: string, fraction: string, g: char)
    requires IsSeparator(g) && g in s
    ensures var raw := s + [SwapChar(g)] + fraction; '.' in raw && ',' in raw
  {
    var raw := s + [SwapChar(g)] + fraction;
    var i :| 0 <= i < |s| && s[i] == g;
    assert raw[i] == g && raw[|s|] == SwapChar(g);
  }

  lemma LastSeparator(s: string, fraction: string, g: char)
    requires IsSeparator(g) && AllDigits(fraction)
    ensures DecimalChar(s + [SwapChar(g)] + fraction) == SwapChar(g)
  {
    var d := SwapChar(g);
    var raw := s + [d] + fraction;
    assert raw[|s|] == d;
    assert forall j :: |s| < j < |raw| ==> raw[j] == fraction[j - |s| - 1];
    assert LastIndexOf(raw, d) == |s|;
    assert LastIndexOf(raw, g) < |s|;
  }

  /** Digits, one separator, digits: a decimal up to two places, one grouped number beyond. */
  lemma PlainDecimal(whole: string, fraction: string, sep: char)
    requires IsSeparator(sep) && AllDigits(whole) && AllDigits(fraction) && fraction != ""
    ensures Number(NormalizeGroupedNumber(whole + [sep] + fraction))
         == if |fraction| <= 2 then Some(DecimalValue(whole, fraction)) else Some(Digits(whole + fraction) as real)
  {
    DigitsAppend(whole, fraction);
    OneSeparatorParts(whole, fraction, sep);
    if |fraction| <= 2 {
      NoSeparatorInDigits(whole, sep);
      ReplaceSeparator(whole, fraction, sep);
      NumberOfDecimal(whole, fraction);
    }
  }

  lemma OneSeparatorParts(whole: string, fraction: string, sep: char)
    requires IsSeparator(sep) && AllDigits(whole) && AllDigits(fraction)
    ensures var raw := whole + [sep] + fraction;
            && sep in raw && SwapChar(sep) !in raw
            && Split(raw, sep) == [whole, fraction] && Joined([whole, fraction]) == whole + fraction
  {
    var raw := whole + [sep] + fraction;
    assert raw[|whole|] == sep;
    NoSeparatorInDigits(whole, sep);
    NoSeparatorInDigits(fraction, sep);
    FirstSeparator(whole, fraction, sep);
    SplitLast(whole, fraction, sep);
    assert raw == whole + ([sep] + fraction);
    assert [whole] + [fraction] == [whole, fraction] && [whole, fraction][1..] == [fraction] && [fraction][1..] == [];
    assert Joined([fraction]) == fraction + "" == fraction;
  }

  lemma GroupedOnlyReadsBack(n: nat, g: char)
    requires IsSeparator(g)
    ensures Number(NormalizeGroupedNumber(Grouped(n, g))) == Some(n as real)
  {
    GroupedParts(n, g);
    GroupedCharacters(n, g);
    GroupsReadBack(Grouped(n, g), n, g);
  }

  lemma GroupsReadBack(s: string, n: nat, g: char)
    requires IsSeparator(g) && GroupsOf(s, n, g) && SwapChar(g) !in s
    ensures Number(NormalizeGroupedNumber(s)) == Some(n as real)
  {
    if n < 1000 {
      NoSeparatorInDigits(s, g);
    }
  }

  lemma SmallDecimalReadsBack(n: nat, fraction: string, sep: char)
    requires IsSeparator(sep) && AllDigits(fraction) && 1 <= |fraction| <= 2 && n < 1000
    ensures Number(NormalizeGroupedNumber(Show(n) + [sep] + fraction)) == Some(PrintedValue(n, fraction))
  {
    ShowIsDecimal(n);
    PlainDecimal(Show(n), fraction, sep);
  }

  lemma DecimalReadsBack(n: nat, fraction: string, g: char)
    requires IsSeparator(g) && AllDigits(fraction) && 1 <= |fraction| <= 2
    ensures Number(NormalizeGroupedNumber(Grouped(n, g) + [SwapChar(g)] + fraction)) == Some(PrintedValue(n, fraction))
  {
    if n >= 1000 {
      GroupedParts(n, g);
      GroupedDecimalReadsBack(Grouped(n, g), n, fraction, g, Grouped(n, g) + [SwapChar(g)] + fraction);
    } else {
      SmallDecimalReadsBack(n, fraction, SwapChar(g));
    }
  }

  lemma WholePrintedValue(n: nat)
    ensures PrintedValue(n, "") == n as real
  {
  }

  /** Every printed number is read as exactly its value. */
  lemma PrintedNumberReadsBack(n: nat, fraction: string, g: char, raw: string)
    requires IsSeparator(g) && AllDigits(fraction) && |fraction| <= 2 && raw == Printed(n, fraction, g)
    ensures Number(NormalizeGroupedNumber(raw)) == Some(PrintedValue(n, fraction))
  {
    if fraction == "" {
      GroupedOnlyReadsBack(n, g);
      WholePrintedValue(n);
      assert raw == Grouped(n, g);
    } else {
      DecimalReadsBack(n, fraction, g);
      assert raw == Grouped(n, g) + [SwapChar(g)] + fraction;
    }
  }

  // ----- The whole input -----

  predicate AllSpace(s: string) {
    forall i :: 0 <= i < |s| ==> IsSpace(s[i])
  }

  lemma {:induction false} PrefixOf(p: char -> bool, a: string, b: string)
    requires (forall i :: 0 <= i < |a| ==> p(a[i])) && (b != "" ==> !p(b[0]))
    ensures PrefixLength(p, a + b) == |a|
  {
    if a == "" {
      assert a + b == b;
    } else {
      PrefixOf(p, a[1..], b);
      assert (a + b)[1..] == a[1..] + b;
    }
  }

  lemma {:induction false} TrimEndOf(s: string, after: string)
    requires AllSpace(after) && s != "" && !IsSpace(s[|s| - 1])
    ensures TrimEnd(s + after) == s
    decreases |after|
  {
    if after == "" {
      assert s + after == s;
    } else {
      TrimEndOf(s, after[..|after| - 1]);
      assert (s + after)[..|s + after| - 1] == s + after[..|after| - 1];
    }
  }

  predicate IsLetters(suffix: string) {
    && (forall i :: 0 <= i < |suffix| ==> IsLetter(suffix[i]))
    && (suffix != "" ==> !IsSpace(suffix[0]) && !IsSpace(suffix[|suffix| - 1]))
  }

  lemma NumberCharIsNoSpace(c: char)
    requires IsNumberChar(c)
    ensures !IsSpace(c)
  {
  }

  lemma LetterIsNoNumberChar(c: char)
    requires IsLetter(c) || IsSpace(c)
    ensures !IsNumberChar(c)
  {
  }

  lemma TrimmedPieces(number: string, spaces: string, suffix: string)
    requires number != "" && forall i :: 0 <= i < |number| ==> IsNumberChar(number[i])
    requires AllSpace(spaces) && IsLetters(suffix) && (suffix == "" ==> spaces == "")
    ensures Match(number + (spaces + suffix)) == Some(Pieces(number, suffix))
  {
    var rest := spaces + suffix;
    if rest != "" {
      LetterIsNoNumberChar(rest[0]);
    }
    PrefixOf(IsNumberChar, number, rest);
    PrefixOf(IsSpace, spaces, suffix);
    assert (number + rest)[..|number|] == number && (number + rest)[|number|..] == rest;
    assert rest[|spaces|..] == suffix;
    PrefixOf(IsLetter, suffix, "");
    assert suffix + "" == suffix;
  }

  /** A number and a word with white space around and between are captured as they are. */
  lemma PiecesAreCaptured(before: string, number: string, spaces: string, suffix: string, after: string)
    requires number != "" && forall i :: 0 <= i < |number| ==> IsNumberChar(number[i])
    requires AllSpace(before) && AllSpace(spaces) && AllSpace(after)
    requires IsLetters(suffix) && (suffix == "" ==> spaces == "")
    ensures Match(Trim(before + (number + (spaces + suffix) + after))) == Some(Pieces(number, suffix))
  {
    var body := number + (spaces + suffix);
    NumberCharIsNoSpace(number[0]);
    NumberCharIsNoSpace(number[|number| - 1]);
    PrefixOf(IsSpace, before, body + after);
    assert (before + (body + after))[|before|..] == body + after;
    TrimEndOf(body, after);
    TrimmedPieces(number, spaces, suffix);
  }

  lemma TimesIs(value: Option<real>, multiplier: Option<real>, v: real, m: real)
    requires value == Some(v) && multiplier == Some(m)
    ensures Times(value, multiplier) == Some(v * m)
  {
    assert Product(value.value, multiplier.value) == Product(v, m);
  }

  lemma CapturedAmount(number: string, suffix: string, v: real, m: real)
    requires Number(NormalizeGroupedNumber(number)) == Some(v) && Multiplier(suffix) == Some(m)
    ensures Amount(number, suffix) == Some(v * m)
  {
    TimesIs(Number(NormalizeGroupedNumber(number)), Multiplier(suffix), v, m);
  }

  lemma CapturedIsRead(raw: string, number: string, suffix: string)
    requires Match(Trim(raw)) == Some(Pieces(number, suffix))
    ensures ParseFlexibleAmount(raw) == Amount(number, suffix)
  {
  }

  lemma PrintedCharacters(n: nat, fraction: string, g: char)
    requires IsSeparator(g) && AllDigits(fraction)
    ensures Printed(n, fraction, g) != ""
    ensures forall i :: 0 <= i < |Printed(n, fraction, g)| ==> IsNumberChar(Printed(n, fraction, g)[i])
  {
    GroupedCharacters(n, g);
  }

  /** Every amount with at most two fraction digits, printed with thousands groups in either convention, with or without
      a magnitude word and white space around, is read as exactly that amount times the word's multiplier. */
  lemma PrintedAmountsReadBack(n: nat, fraction: string, g: char,
                               before: string, spaces: string, suffix: string, after: string, multiplier: real)
    requires IsSeparator(g) && AllDigits(fraction) && |fraction| <= 2
    requires AllSpace(before) && AllSpace(spaces) && AllSpace(after) && (suffix == "" ==> spaces == "")
    requires IsLetters(suffix) && Multiplier(suffix) == Some(multiplier)
    ensures ParseFlexibleAmount(before + (Printed(n, fraction, g) + (spaces + suffix) + after))
         == Some(PrintedValue(n, fraction) * multiplier)
  {
    PrintedCharacters(n, fraction, g);
    PrintedNumberReadsBack(n, fraction, g, Printed(n, fraction, g));
    PiecesAreCaptured(before, Printed(n, fraction, g), spaces, suffix, after);
    CapturedIsRead(before + (Printed(n, fraction, g) + (spaces + suffix) + after), Printed(n, fraction, g), suffix);
    CapturedAmount(Printed(n, fraction, g), suffix, PrintedValue(n, fraction), multiplier);
  }

  // ----- The magnitude words -----

  lemma {:induction false} FoundAt(word: string, table: seq<(seq<string>, real)>, row: nat)
    requires row < |table| && word in table[row].0
    requires forall k :: 0 <= k < row ==> word !in table[k].0
    ensures FindMultiplier(word, table) == Some(table[row].1)
  {
    if row > 0 {
      FoundAt(word, table[1..], row - 1);
    }
  }

  predicate IsLower(word: string) {
    forall i :: 0 <= i < |word| ==> Lower(word[i]) == word[i]
  }

  lemma TableIsLower(word: string, row: nat)
    requires row < |SHORTHAND_MULTIPLIERS| && word in SHORTHAND_MULTIPLIERS[row].0
    ensures word != "" && IsLower(word)
  {
    var i :| 0 <= i < |SHORTHAND_MULTIPLIERS[row].0| && SHORTHAND_MULTIPLIERS[row].0[i] == word;
  }

  lemma RowsShareNoWord(word: string, row: nat, k: nat)
    requires k < row < |SHORTHAND_MULTIPLIERS| && word in SHORTHAND_MULTIPLIERS[row].0
    ensures word !in SHORTHAND_MULTIPLIERS[k].0
  {
    var i :| 0 <= i < |SHORTHAND_MULTIPLIERS[row].0| && SHORTHAND_MULTIPLIERS[row].0[i] == word;
  }

  lemma {:induction false} NotFound(word: string, table: seq<(seq<string>, real)>)
    requires forall k :: 0 <= k < |table| ==> word !in table[k].0
    ensures FindMultiplier(word, table) == None
  {
    if table != [] {
      NotFound(word, table[1..]);
    }
  }

  /** The words in full: billions, millions, thousands, and the Japanese hundred millions and ten thousands; no word
      means the number itself, and no other word is known. */
  lemma MagnitudesInWords(word: string)
    requires IsLower(word)
    ensures Multiplier(word)
         == if word == "" then Some(1.0)
            else if word in {"ty", "t\U{1EF7}", "billion", "bn", "b"} then Some(Power(9) as real)
            else if word in {"tr", "trieu", "tri\U{1EC7}u", "million", "mil", "m"} then Some(Power(6) as real)
            else if word in {"k", "nghin", "ngh\U{EC}n", "ngan", "ng\U{E0}n", "thousand"} then Some(Power(3) as real)
            else if word in {"oku", "\U{5104}"} then Some(Power(8) as real)
            else if word in {"man", "\U{4E07}"} then Some(Power(4) as real)
            else None
  {
    assert Map(Lower, word) == word;
    PowersInFull();
    if row: nat :| row < |SHORTHAND_MULTIPLIERS| && word in SHORTHAND_MULTIPLIERS[row].0 {
      WordsHaveTheirMultiplier(word, row);
    } else if word != "" {
      NotFound(word, SHORTHAND_MULTIPLIERS);
    }
  }

  lemma PowersInFull()
    ensures Power(3) == 1000 && Power(4) == 10000 && Power(6) == 1000000
    ensures Power(8) == 100000000 && Power(9) == 1000000000
  {
    assert Power(2) == 100 && Power(4) == 10 * Power(3) && Power(6) == 10 * Power(5) && Power(8) == 10 * Power(7);
  }

  /** Every word of the table has its own row's multiplier: no earlier row hides it. */
  lemma WordsHaveTheirMultiplier(word: string, row: nat)
    requires row < |SHORTHAND_MULTIPLIERS| && word in SHORTHAND_MULTIPLIERS[row].0
    ensures Multiplier(word) == Some(SHORTHAND_MULTIPLIERS[row].1)
  {
    TableIsLower(word, row);
    assert Map(Lower, word) == word;
    forall k | 0 <= k < row ensures word !in SHORTHAND_MULTIPLIERS[k].0 {
      RowsShareNoWord(word, row, k);
    }
    FoundAt(word, SHORTHAND_MULTIPLIERS, row);
  }

  /** The same letter, whatever its case. */
  predicate SameLetter(a: char, b: char) {
    || a == b
    || ('A' <= a <= 'Z' && b as int == a as int + 32) || ('A' <= b <= 'Z' && a as int == b as int + 32)
    || {a, b} == {'\U{1EF6}', '\U{1EF7}'} || {a, b} == {'\U{1EC6}', '\U{1EC7}'}
  }

  /** Magnitude words are recognised in any mix of cases. */
  lemma WordsIgnoreCase(a: string, b: string)
    requires |a| == |b| && forall i :: 0 <= i < |a| ==> SameLetter(a[i], b[i])
    ensures Multiplier(a) == Multiplier(b)
  {
    forall i | 0 <= i < |a| ensures Lower(a[i]) == Lower(b[i]) {
      LowerIgnoresCase(a[i], b[i]);
    }
    assert Map(Lower, a) == Map(Lower, b);
  }

  lemma LowerIgnoresCase(a: char, b: char)
    requires SameLetter(a, b)
    ensures Lower(a) == Lower(b)
  {
    assert a in {a, b} && b in {a, b};
  }

  // ----- Which numbers are read at all -----

  /** With both separators, the last one once and some digit; otherwise anything but a lone separator. */
  ghost predicate Readable(number: string) {
    if '.' in number && ',' in number then
      multiset(number)[DecimalChar(number)] == 1 && exists i :: 0 <= i < |number| && IsDigit(number[i])
    else number != "." && number != ","
  }

  function Without(s: string, c: char): string {
    Filter((x: char) => x != c, s)
  }

  lemma WithoutAround(a: string, b: string, c: char)
    requires c !in a
    ensures Without(a + ([c] + b), c) == a + Without(b, c)
  {
    var keep := (x: char) => x != c;
    FilterAppend(keep, a, [c] + b);
    FilterAppend(keep, [c], b);
    FilterAll(keep, a);
    FilterNone(keep, [c]);
    assert [] + Filter(keep, b) == Filter(keep, b);
  }

  lemma JoinedAround(a: string, b: string, c: char)
    requires c !in a
    ensures Joined(Split(a + ([c] + b), c)) == a + Joined(Split(b, c))
  {
    FirstSeparator(a, b, c);
    JoinedSplitUnfold(a + ([c] + b), c);
  }

  lemma {:induction false} JoinedIsWithout(s: string, c: char)
    ensures Joined(Split(s, c)) == Without(s, c)
    decreases |s|
  {
    if c in s {
      var a, b := s[..IndexOf(s, c)], s[IndexOf(s, c) + 1..];
      assert s == a + ([c] + b);
      JoinedIsWithout(b, c);
      JoinedAround(a, b, c);
      WithoutAround(a, b, c);
    } else {
      JoinedSplitNone(s, c);
      FilterAll((x: char) => x != c, s);
    }
  }

  lemma JoinedKeepsOthers(s: string, c: char, x: char)
    requires x != c
    ensures multiset(Joined(Split(s, c)))[x] == multiset(s)[x]
  {
    JoinedIsWithout(s, c);
    FilterMultiplicity((y: char) => y != c, s, x);
  }

  lemma CountAround(a: string, b: string, d: char)
    requires d !in a
    ensures multiset(a + ([d] + b))[d] == 1 + multiset(b)[d]
  {
    assert multiset(a)[d] == 0;
  }

  lemma TwiceMeansLater(s: string, d: char)
    requires d in s
    ensures multiset(s)[d] == 1 <==> d !in s[IndexOf(s, d) + 1..]
  {
    var i := IndexOf(s, d);
    assert s == s[..i] + ([d] + s[i + 1..]);
    CountAround(s[..i], s[i + 1..], d);
  }

  lemma DecimalPieces(whole: string, fraction: string, d: char)
    requires IsSeparator(d) && AllDigits(whole)
    requires forall i :: 0 <= i < |fraction| ==> IsDigit(fraction[i]) || fraction[i] == d
    ensures Number(whole + ['.'] + fraction).Some? <==> d !in fraction && whole + fraction != ""
  {
    if d in fraction {
      var j :| 0 <= j < |fraction| && fraction[j] == d;
      var s := whole + ['.'] + fraction;
      assert s[|whole|] == '.' && s[|whole| + 1 + j] == d;
      SecondSeparatorIsNoNumber(s, |whole|, |whole| + 1 + j);
    } else if whole + fraction != "" {
      NumberOfDecimal(whole, fraction);
    } else {
      assert whole + ['.'] + fraction == ".";
      assert !IsDigit("."[0]);
    }
  }

  lemma {:induction false} AroundFirst(s: string, d: char)
    requires d in s && forall i :: 0 <= i < |s| ==> IsDigit(s[i]) || s[i] == d
    ensures AllDigits(s[..IndexOf(s, d)])
    ensures ReplaceFirst(s, d, '.') == s[..IndexOf(s, d)] + ['.'] + s[IndexOf(s, d) + 1..]
    ensures s == [d] <==> s[..IndexOf(s, d)] + s[IndexOf(s, d) + 1..] == ""
  {
    UpdateSplits(s, IndexOf(s, d), '.');
    LoneCharacter(s, IndexOf(s, d));
  }

  lemma UpdateSplits(s: string, i: nat, c: char)
    requires i < |s|
    ensures s[i := c] == s[..i] + [c] + s[i + 1..]
  {
  }

  lemma LoneCharacter(s: string, i: nat)
    requires i < |s|
    ensures s == [s[i]] <==> s[..i] + s[i + 1..] == ""
  {
    assert |s[..i] + s[i + 1..]| == |s| - 1;
  }

  /** Digits and one kind of separator, of which the first counts as the decimal point. */
  lemma DecimalReadIff(s: string, d: char)
    requires IsSeparator(d) && d in s && forall i :: 0 <= i < |s| ==> IsDigit(s[i]) || s[i] == d
    ensures Number(ReplaceFirst(s, d, '.')).Some? <==> multiset(s)[d] == 1 && s != [d]
  {
    TwiceMeansLater(s, d);
    AroundFirst(s, d);
    DecimalPieces(s[..IndexOf(s, d)], s[IndexOf(s, d) + 1..], d);
  }

  lemma OneKindReadIff(raw: string, sep: char)
    requires IsSeparator(sep) && sep in raw && forall i :: 0 <= i < |raw| ==> IsDigit(raw[i]) || raw[i] == sep
    ensures Number(Ungrouped(raw, sep)).Some? <==> raw != [sep]
  {
    var parts := Split(raw, sep);
    if raw == [sep] {
      assert raw == "" + ([sep] + "");
      SplitLast("", "", sep);
    }
    if |parts| == 2 && |parts[1]| <= 2 {
      OneSeparator(raw, sep);
      TwiceMeansLater(raw, sep);
      DecimalReadIff(raw, sep);
    } else {
      JoinedAreDigits(raw, sep);
    }
  }

  lemma JoinedAreDigits(raw: string, sep: char)
    requires forall i :: 0 <= i < |raw| ==> IsDigit(raw[i]) || raw[i] == sep
    ensures AllDigits(Joined(Split(raw, sep)))
  {
    var joined := Joined(Split(raw, sep));
    forall i | 0 <= i < |joined| ensures IsDigit(joined[i]) {
      JoinedLacks(raw, sep, joined[i]);
      assert joined[i] in joined;
    }
  }

  lemma TwoKindsReadIff(raw: string, d: char)
    requires IsSeparator(d) && d in raw && forall i :: 0 <= i < |raw| ==> IsNumberChar(raw[i])
    ensures Number(ReplaceFirst(Joined(Split(raw, SwapChar(d))), d, '.')).Some?
            <==> multiset(raw)[d] == 1 && exists i :: 0 <= i < |raw| && IsDigit(raw[i])
  {
    var group := SwapChar(d);
    var joined := Joined(Split(raw, group));
    forall i | 0 <= i < |joined| ensures IsDigit(joined[i]) || joined[i] == d {
      JoinedLacks(raw, group, joined[i]);
      assert joined[i] in joined;
    }
    JoinedLacks(raw, group, d);
    JoinedKeepsOthers(raw, group, d);
    DecimalReadIff(joined, d);
    if i :| 0 <= i < |raw| && IsDigit(raw[i]) {
      JoinedLacks(raw, group, raw[i]);
      assert raw[i] in joined && raw[i] != d;
    } else {
      forall i | 0 <= i < |joined| ensures joined[i] == d {
        JoinedLacks(raw, group, joined[i]);
        assert joined[i] in joined;
      }
      AllTheSame(joined, d);
    }
  }

  lemma {:induction false} AllTheSame(s: string, d: char)
    requires forall i :: 0 <= i < |s| ==> s[i] == d
    ensures multiset(s)[d] == |s|
    ensures |s| == 1 ==> s == [d]
  {
    if s != "" {
      AllTheSame(s[1..], d);
      assert s == [s[0]] + s[1..];
    }
  }

  lemma NumberIsReadIff(number: string)
    requires forall i :: 0 <= i < |number| ==> IsNumberChar(number[i])
    ensures Number(NormalizeGroupedNumber(number)).Some? <==> Readable(number)
  {
    if '.' in number && ',' in number {
      TwoKindsReadIff(number, DecimalChar(number));
    } else if '.' in number {
      OneKindReadIff(number, '.');
    } else if ',' in number {
      OneKindReadIff(number, ',');
    }
  }

  // ----- Which inputs split into a number and a word -----

  /** White space, digits and separators, white space and a word or nothing, white space. */
  ghost predicate Splits(raw: string, before: string, number: string, spaces: string, suffix: string, after: string) {
    && raw == before + (number + (spaces + suffix) + after)
    && AllSpace(before) && AllSpace(spaces) && AllSpace(after) && IsLetters(suffix) && (suffix == "" ==> spaces == "")
    && number != "" && forall i :: 0 <= i < |number| ==> IsNumberChar(number[i])
  }

  lemma {:induction false} TrimEndSplits(s: string) returns (after: string)
    ensures s == TrimEnd(s) + after && AllSpace(after)
    ensures TrimEnd(s) != "" ==> !IsSpace(TrimEnd(s)[|TrimEnd(s)| - 1])
  {
    after := "";
    if s != "" && IsSpace(s[|s| - 1]) {
      var rest := TrimEndSplits(s[..|s| - 1]);
      after := rest + [s[|s| - 1]];
      assert s == s[..|s| - 1] + [s[|s| - 1]];
    }
  }

  lemma {:induction false} TrimSplits(raw: string) returns (before: string, after: string)
    ensures raw == before + (Trim(raw) + after) && AllSpace(before) && AllSpace(after)
    ensures Trim(raw) != "" ==> !IsSpace(Trim(raw)[|Trim(raw)| - 1])
  {
    before := raw[..PrefixLength(IsSpace, raw)];
    after := TrimEndSplits(WithoutSpace(raw));
    assert raw == before + WithoutSpace(raw);
  }

  lemma {:induction false} SuffixSplits(rest: string) returns (spaces: string)
    requires PrefixLength(IsLetter, WithoutSpace(rest)) >= |WithoutSpace(rest)|
    requires rest != "" ==> !IsSpace(rest[|rest| - 1])
    ensures rest == spaces + WithoutSpace(rest) && AllSpace(spaces) && IsLetters(WithoutSpace(rest))
    ensures WithoutSpace(rest) == "" ==> spaces == ""
  {
    var k, word := PrefixLength(IsSpace, rest), WithoutSpace(rest);
    spaces := rest[..k];
    forall i | 0 <= i < |word| ensures IsLetter(word[i]) {
      assert PrefixLength(IsLetter, word) == |word|;
    }
  }

  lemma {:induction false} MatchParts(t: string, number: string, suffix: string)
    requires Match(t) == Some(Pieces(number, suffix))
    ensures var n := PrefixLength(IsNumberChar, t);
            0 < n && number == t[..n] && suffix == WithoutSpace(t[n..])
    ensures PrefixLength(IsLetter, suffix) >= |suffix|
  {
  }

  lemma {:induction false} PrefixCharacters(p: char -> bool, t: string, prefix: string)
    requires prefix == t[..PrefixLength(p, t)]
    ensures forall i :: 0 <= i < |prefix| ==> p(prefix[i])
  {
  }

  lemma LastOfTail(t: string, n: nat)
    requires n < |t|
    ensures t[n..][|t[n..]| - 1] == t[|t| - 1]
  {
  }

  lemma TakeAndDrop(t: string, n: nat, spaces: string, suffix: string)
    requires n <= |t| && t[n..] == spaces + suffix
    ensures t == t[..n] + (spaces + suffix)
  {
  }

  lemma {:induction false} MatchSplits(t: string, number: string, suffix: string) returns (spaces: string)
    requires Match(t) == Some(Pieces(number, suffix)) && !IsSpace(t[|t| - 1])
    ensures t == number + (spaces + suffix)
    ensures AllSpace(spaces) && IsLetters(suffix) && (suffix == "" ==> spaces == "")
    ensures number != "" && forall i :: 0 <= i < |number| ==> IsNumberChar(number[i])
  {
    var n := PrefixLength(IsNumberChar, t);
    MatchParts(t, number, suffix);
    PrefixCharacters(IsNumberChar, t, number);
    if n < |t| {
      LastOfTail(t, n);
    }
    spaces := SuffixSplits(t[n..]);
    TakeAndDrop(t, n, spaces, suffix);
  }

  /** A captured input splits into the captured number and word. */
  lemma {:induction false} CapturedSplits(raw: string, number: string, suffix: string)
    returns (before: string, spaces: string, after: string)
    requires Match(Trim(raw)) == Some(Pieces(number, suffix))
    ensures Splits(raw, before, number, spaces, suffix, after)
  {
    before, after := TrimSplits(raw);
    spaces := MatchSplits(Trim(raw), number, suffix);
  }

  /** An input is captured exactly when it splits so, and there is then one number and one word. */
  lemma CapturedIff(raw: string, number: string, suffix: string)
    ensures Match(Trim(raw)) == Some(Pieces(number, suffix))
            <==> exists before, spaces, after :: Splits(raw, before, number, spaces, suffix, after)
  {
    if Match(Trim(raw)) == Some(Pieces(number, suffix)) {
      var before, spaces, after := CapturedSplits(raw, number, suffix);
    }
    if before, spaces, after :| Splits(raw, before, number, spaces, suffix, after) {
      PiecesAreCaptured(before, number, spaces, suffix, after);
    }
  }

  // ----- What a readable number is worth -----

  function DigitsOnly(s: string): (r: string)
    ensures AllDigits(r)
  {
    var r := Filter(IsDigit, s);
    assert forall i :: 0 <= i < |r| ==> r[i] in r;
    r
  }

  /** The separator at i is a decimal point: the last separator, and either separators of both kinds occur, or it is the
      only one and at most two digits follow. */
  ghost predicate PointAt(number: string, i: nat) {
    && i < |number| && IsSeparator(number[i])
    && (forall j :: i < j < |number| ==> !IsSeparator(number[j]))
    && (('.' in number && ',' in number)
        || ((forall j :: 0 <= j < i ==> !IsSeparator(number[j])) && |number| - i - 1 <= 2))
  }

  lemma WithoutIsDigitsOnly(s: string, c: char)
    requires IsSeparator(c) && forall i :: 0 <= i < |s| ==> IsDigit(s[i]) || s[i] == c
    ensures Without(s, c) == DigitsOnly(s)
  {
    FilterSame((x: char) => x != c, IsDigit, s);
  }

  lemma DigitsOnlyOfDigits(s: string)
    requires AllDigits(s)
    ensures DigitsOnly(s) == s
  {
    FilterAll(IsDigit, s);
  }

  lemma WithoutAroundPoint(a: string, b: string, d: char, g: char)
    requires d != g
    ensures Without(a + ([d] + b), g) == Without(a, g) + ([d] + Without(b, g))
  {
    var keep := (x: char) => x != g;
    FilterAppend(keep, a, [d] + b);
    FilterAppend(keep, [d], b);
    FilterAll(keep, [d]);
  }

  /** Digits, one separator, digits: read as the decimal they write. */
  lemma PointReads(a: string, b: string, d: char, s: string)
    requires IsSeparator(d) && AllDigits(a) && AllDigits(b) && a + b != "" && s == a + ([d] + b)
    ensures Number(ReplaceFirst(s, d, '.')) == Some(DecimalValue(a, b))
  {
    assert s[|a|] == d && d in s;
    assert IndexOf(s, d) == |a| by {
      assert forall j :: 0 <= j < |a| ==> s[j] == a[j] && s[j] != d;
    }
    assert ReplaceFirst(s, d, '.') == a + ['.'] + b;
    NumberOfDecimal(a, b);
  }

  lemma DecimalCharIsLast(number: string, i: nat)
    requires '.' in number && ',' in number && PointAt(number, i)
    ensures DecimalChar(number) == number[i]
  {
    LastIndexFound(number, '.');
    LastIndexFound(number, ',');
  }

  lemma CountedTwice(s: string, a: nat, b: nat)
    requires a < b < |s| && s[a] == s[b]
    ensures multiset(s)[s[a]] >= 2
  {
    assert s == s[..a] + [s[a]] + s[a + 1..b] + [s[b]] + s[b + 1..];
  }

  lemma OnlyPointOfItsKind(number: string, i: nat)
    requires i < |number| && multiset(number)[number[i]] == 1
    ensures forall j :: 0 <= j < |number| && j != i ==> number[j] != number[i]
  {
    forall j | 0 <= j < |number| && j != i ensures number[j] != number[i] {
      if number[j] == number[i] {
        CountedTwice(number, if i < j then i else j, if i < j then j else i);
      }
    }
  }

  lemma TwoKindsValue(number: string, i: nat)
    requires '.' in number && ',' in number && Readable(number) && PointAt(number, i)
    requires forall k :: 0 <= k < |number| ==> IsNumberChar(number[k])
    ensures Number(NormalizeGroupedNumber(number))
         == Some(DecimalValue(DigitsOnly(number[..i]), DigitsOnly(number[i + 1..])))
  {
    var a, b := number[..i], number[i + 1..];
    DecimalCharIsLast(number, i);
    OnlyPointOfItsKind(number, i);
    assert number == a + ([number[i]] + b);
    SomeDigitIsLeft(number, a, b, number[i]);
    GroupsAroundPoint(a, b, number[i], number);
  }

  lemma GroupsAroundPoint(a: string, b: string, d: char, number: string)
    requires IsSeparator(d) && number == a + ([d] + b) && DigitsOnly(a) + DigitsOnly(b) != ""
    requires forall k :: 0 <= k < |a| ==> IsDigit(a[k]) || a[k] == SwapChar(d)
    requires forall k :: 0 <= k < |b| ==> IsDigit(b[k]) || b[k] == SwapChar(d)
    ensures Number(ReplaceFirst(Joined(Split(number, SwapChar(d))), d, '.'))
         == Some(DecimalValue(DigitsOnly(a), DigitsOnly(b)))
  {
    var g := SwapChar(d);
    JoinedIsWithout(number, g);
    WithoutAroundPoint(a, b, d, g);
    WithoutIsDigitsOnly(a, g);
    WithoutIsDigitsOnly(b, g);
    PointReads(DigitsOnly(a), DigitsOnly(b), d, Without(number, g));
  }

  lemma SomeDigitIsLeft(number: string, a: string, b: string, d: char)
    requires number == a + ([d] + b) && !IsDigit(d) && exists k :: 0 <= k < |number| && IsDigit(number[k])
    ensures DigitsOnly(a) + DigitsOnly(b) != ""
  {
    var k :| 0 <= k < |number| && IsDigit(number[k]);
    assert k < |a| ==> number[k] in a;
    assert k > |a| ==> number[k] == b[k - |a| - 1] && number[k] in b;
    assert number[k] in DigitsOnly(a) || number[k] in DigitsOnly(b);
  }

  lemma OneKindPointValue(number: string, i: nat, sep: char)
    requires IsSeparator(sep) && SwapChar(sep) !in number && number != [sep] && PointAt(number, i) && number[i] == sep
    requires forall k :: 0 <= k < |number| ==> IsNumberChar(number[k])
    ensures Number(Ungrouped(number, sep)) == Some(DecimalValue(DigitsOnly(number[..i]), DigitsOnly(number[i + 1..])))
  {
    var a, b := number[..i], number[i + 1..];
    assert number == a + [sep] + b == a + ([sep] + b);
    PlainDecimalParts(a, b, sep);
    DigitsOnlyOfDigits(a);
    DigitsOnlyOfDigits(b);
    PointReads(a, b, sep, number);
  }

  lemma PlainDecimalParts(a: string, b: string, sep: char)
    requires IsSeparator(sep) && AllDigits(a) && AllDigits(b)
    ensures Split(a + [sep] + b, sep) == [a, b]
  {
    OneSeparatorParts(a, b, sep);
  }

  lemma ShortTailHasAPoint(number: string, sep: char)
    requires IsSeparator(sep) && SwapChar(sep) !in number
    requires |Split(number, sep)| == 2 && |Split(number, sep)[1]| <= 2
    ensures exists i: nat :: PointAt(number, i)
  {
    OneSeparator(number, sep);
    assert PointAt(number, IndexOf(number, sep));
  }

  lemma OneKindGroupsValue(number: string, sep: char)
    requires IsSeparator(sep) && sep in number && SwapChar(sep) !in number && forall i: nat :: !PointAt(number, i)
    requires forall k :: 0 <= k < |number| ==> IsNumberChar(number[k])
    ensures Number(Ungrouped(number, sep)) == Some(Digits(DigitsOnly(number)) as real)
  {
    if |Split(number, sep)| == 2 && |Split(number, sep)[1]| <= 2 {
      ShortTailHasAPoint(number, sep);
    }
    JoinedIsWithout(number, sep);
    WithoutIsDigitsOnly(number, sep);
  }

  /** A number is worth the digits before and after its decimal point, or else all its digits. */
  ghost predicate IsWorth(number: string, value: real) {
    && (forall i: nat :: PointAt(number, i) ==>
          value == DecimalValue(DigitsOnly(number[..i]), DigitsOnly(number[i + 1..])))
    && ((forall i: nat :: !PointAt(number, i)) ==> value == Digits(DigitsOnly(number)) as real)
  }

  /** Every readable number is read as what it is worth. */
  lemma NumberIsWorth(number: string) returns (value: real)
    requires Readable(number) && forall k :: 0 <= k < |number| ==> IsNumberChar(number[k])
    ensures Number(NormalizeGroupedNumber(number)) == Some(value) && IsWorth(number, value)
  {
    NumberIsReadIff(number);
    value := Number(NormalizeGroupedNumber(number)).value;
    if '.' in number && ',' in number {
      BothKindsAreWorth(number, value);
    } else if '.' in number || ',' in number {
      OneKindValue(number, if '.' in number then '.' else ',');
    } else {
      assert forall k :: 0 <= k < |number| ==> number[k] in number;
      DigitsOnlyOfDigits(number);
    }
  }

  lemma BothKindsAreWorth(number: string, value: real)
    requires '.' in number && ',' in number && Readable(number)
    requires forall k :: 0 <= k < |number| ==> IsNumberChar(number[k])
    requires Number(NormalizeGroupedNumber(number)) == Some(value)
    ensures IsWorth(number, value)
  {
    forall i: nat | PointAt(number, i)
      ensures value == DecimalValue(DigitsOnly(number[..i]), DigitsOnly(number[i + 1..]))
    {
      TwoKindsValue(number, i);
    }
    BothKindsHaveAPoint(number);
  }

  lemma BothKindsHaveAPoint(number: string)
    requires '.' in number && ',' in number
    ensures exists i: nat :: PointAt(number, i)
  {
    LastIndexFound(number, '.');
    LastIndexFound(number, ',');
    var i, j := LastIndexOf(number, '.'), LastIndexOf(number, ',');
    assert PointAt(number, if i > j then i else j);
  }

  lemma OneKindValue(number: string, sep: char)
    requires IsSeparator(sep) && sep in number && SwapChar(sep) !in number && number != [sep]
    requires forall k :: 0 <= k < |number| ==> IsNumberChar(number[k])
    ensures forall i: nat :: PointAt(number, i) ==>
              Number(Ungrouped(number, sep))
              == Some(DecimalValue(DigitsOnly(number[..i]), DigitsOnly(number[i + 1..])))
    ensures (forall i: nat :: !PointAt(number, i)) ==>
              Number(Ungrouped(number, sep)) == Some(Digits(DigitsOnly(number)) as real)
  {
    forall i: nat | PointAt(number, i)
      ensures Number(Ungrouped(number, sep))
           == Some(DecimalValue(DigitsOnly(number[..i]), DigitsOnly(number[i + 1..])))
    {
      assert number[i] in number;
      OneKindPointValue(number, i, sep);
    }
    if forall i: nat :: !PointAt(number, i) {
      OneKindGroupsValue(number, sep);
    }
  }

  /** An input is read as some amount exactly when it splits into a readable number and a known word or none. */
  lemma InputIsReadIff(raw: string)
    ensures ParseFlexibleAmount(raw).Some? <==>
              exists before, number, spaces, suffix, after ::
                Splits(raw, before, number, spaces, suffix, after) && Readable(number) && Multiplier(suffix).Some?
  {
    if before, number, spaces, suffix, after :|
      Splits(raw, before, number, spaces, suffix, after) && Readable(number) && Multiplier(suffix).Some?
    {
      PiecesAreCaptured(before, number, spaces, suffix, after);
      NumberIsReadIff(number);
    }
    if ParseFlexibleAmount(raw).Some? {
      var pieces := Match(Trim(raw)).value;
      var before, spaces, after := CapturedSplits(raw, pieces.number, pieces.suffix);
      NumberIsReadIff(pieces.number);
    }
  }

  /** And then it is read as what its number is worth times what its word stands for. */
  lemma InputIsWorth(raw: string, before: string, number: string, spaces: string, suffix: string, after: string,
                     multiplier: real) returns (value: real)
    requires Splits(raw, before, number, spaces, suffix, after)
    requires Readable(number) && Multiplier(suffix) == Some(multiplier)
    ensures IsWorth(number, value) && ParseFlexibleAmount(raw) == Some(value * multiplier)
  {
    PiecesAreCaptured(before, number, spaces, suffix, after);
    CapturedIsRead(raw, number, suffix);
    value := NumberIsWorth(number);
    CapturedAmount(number, suffix, value, multiplier);
  }

  // ----- Decimals without groups -----

  lemma ThousandfoldOnlyZero(whole: nat, fraction: nat, p: nat)
    requires p >= 10
    ensures (whole * p + fraction) as real == whole as real + fraction as real / p as real
            <==> whole == 0 && fraction == 0
  {
    var v, q := whole as real + fraction as real / p as real, p as real;
    DivideMultiply(fraction as real, q);
    assert v * q == (whole * p + fraction) as real by {
      assert v * q == whole as real * q + fraction as real / q * q;
      assert (whole * p) as real == whole as real * q;
    }
    if v * q == v {
      assert v * (q - 1.0) == 0.0;
      assert v == 0.0;
      assert v * q == 0.0;
    }
  }

  lemma LongFractionIsTenfold(k: nat)
    requires k >= 1
    ensures Power(k) >= 10
  {
  }

  lemma DigitsAndSeparator(whole: string, fraction: string, sep: char)
    requires IsSeparator(sep) && AllDigits(whole) && AllDigits(fraction)
    ensures var raw := whole + [sep] + fraction; raw != "" && forall i :: 0 <= i < |raw| ==> IsNumberChar(raw[i])
  {
  }

  /** A number with nothing around it. */
  lemma BareNumberIsRead(raw: string, value: real)
    requires raw != "" && forall i :: 0 <= i < |raw| ==> IsNumberChar(raw[i])
    requires Number(NormalizeGroupedNumber(raw)) == Some(value)
    ensures ParseFlexibleAmount(raw) == Some(value)
  {
    assert "" + (raw + ("" + "") + "") == raw;
    PiecesAreCaptured("", raw, "", "", "");
    CapturedIsRead(raw, raw, "");
    CapturedAmount(raw, "", value, 1.0);
  }

  /** What a decimal typed without groups is read as. */
  function PlainReading(whole: string, fraction: string): real
    requires AllDigits(whole) && AllDigits(fraction)
  {
    DigitsAppend(whole, fraction);
    if |fraction| <= 2 then DecimalValue(whole, fraction) else Digits(whole + fraction) as real
  }

  lemma RightValueIff(whole: string, fraction: string)
    requires AllDigits(whole) && AllDigits(fraction) && fraction != ""
    ensures PlainReading(whole, fraction) == DecimalValue(whole, fraction)
            <==> |fraction| <= 2 || (Digits(whole) == 0 && Digits(fraction) == 0)
  {
    DigitsAppend(whole, fraction);
    LongFractionIsTenfold(|fraction|);
    ThousandfoldOnlyZero(Digits(whole), Digits(fraction), Power(|fraction|));
  }

  /** A decimal typed without groups is read as its value exactly when it has at most two fraction digits or is zero:
      with more, the separator counts as grouping. */
  lemma PlainDecimalReadsBackIff(whole: string, fraction: string, sep: char)
    requires IsSeparator(sep) && AllDigits(whole) && AllDigits(fraction) && fraction != ""
    ensures ParseFlexibleAmount(whole + [sep] + fraction) == Some(DecimalValue(whole, fraction))
            <==> |fraction| <= 2 || (Digits(whole) == 0 && Digits(fraction) == 0)
  {
    DigitsAndSeparator(whole, fraction, sep);
    PlainDecimal(whole, fraction, sep);
    BareNumberIsRead(whole + [sep] + fraction, PlainReading(whole, fraction));
    RightValueIff(whole, fraction);
  }
}
