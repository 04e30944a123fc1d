/** The string operations the handlers rely on, with JavaScript's meaning:
    rendering and reading numbers in a radix (`toString(radix)`, `parseInt`),
    `slice`, `substr`, `padStart`, `indexOf`, `split`, `join` and `reverse`. */
module Text {
  import opened Bits

  datatype Option<+T> = None | Some(value: T)

  function Min(a: int, b: int): int { if a <= b then a else b }

  function Max(a: int, b: int): int { if a <= b then b else a }

  // ---------------------------------------------------------------------------
  // Digits

  /** The value of a digit character as `parseInt` reads it; 16 for a
      character that is not a digit in any radix up to 16. */
  function DigitValue(c: char): nat
  {
    if '0' <= c <= '9' then c as int - '0' as int
    else if 'a' <= c <= 'f' then c as int - 'a' as int + 10
    else if 'A' <= c <= 'F' then c as int - 'A' as int + 10
    else 16
  }

  predicate IsDigit(c: char, radix: nat)
  {
    DigitValue(c) < radix
  }

  /** The lower-case digit character for d, as `toString(radix)` writes it. */
  function DigitChar(d: nat): (c: char)
    requires d < 16
    ensures DigitValue(c) == d
  {
    if d < 10 then ('0' as int + d) as char else ('a' as int + d - 10) as char
  }

  /** `n.toString(radix)` for a non-negative integer (also `Long.toString`):
      its digits, most significant first, without leading zeros. */
  function ToRadix(n: nat, radix: nat): (s: string)
    requires 2 <= radix <= 16
    ensures 1 <= |s|
    ensures forall i :: 0 <= i < |s| ==> IsDigit(s[i], radix)
    ensures s[0] == '0' ==> n == 0
    decreases n
  {
    if n < radix then [DigitChar(n)]
    else
      DivDecreases(n, radix);
      ToRadix(n / radix, radix) + [DigitChar(n % radix)]
  }

  /** The last k digits of n in the radix, zero-padded to exactly k characters. */
  function FixedDigits(n: nat, radix: nat, k: nat): (s: string)
    requires 2 <= radix <= 16
    ensures |s| == k
    ensures forall i :: 0 <= i < |s| ==> IsDigit(s[i], radix)
  {
    if k == 0 then [] else FixedDigits(n / radix, radix, k - 1) + [DigitChar(n % radix)]
  }

  /** The number a string of digits denotes in the radix, most significant first. */
  function ParseRadix(s: string, radix: nat): nat
  {
    if s == [] then 0 else ParseRadix(s[..|s| - 1], radix) * radix + DigitValue(s[|s| - 1])
  }

  /** Appending a digit multiplies the value by the radix and adds the digit. */
  lemma ParseRadixSnoc(s: string, c: char, radix: nat)
    ensures ParseRadix(s + [c], radix) == ParseRadix(s, radix) * radix + DigitValue(c)
  {
    assert (s + [c])[..|s|] == s;
  }

  /** Reading back what ToRadix wrote gives the number. */
  lemma {:induction false} ParseToRadix(n: nat, radix: nat)
    requires 2 <= radix <= 16
    ensures ParseRadix(ToRadix(n, radix), radix) == n
  {
    if n >= radix {
      var q := n / radix;
      DivDecreases(n, radix);
      ParseRadixSnoc(ToRadix(q, radix), DigitChar(n % radix), radix);
      ParseToRadix(q, radix);
      DivRebuild(n, radix);
    }
  }

  /** A decimal text as `toString(10)` writes it: at least one digit, and no
      leading zero unless the text is "0". */
  predicate CanonicalDecimal(s: string)
  {
    s != [] && (forall i :: 0 <= i < |s| ==> IsDigit(s[i], 10)) && (s[0] == '0' ==> |s| == 1)
  }

  /** `toString(10)` writes a canonical decimal text. */
  lemma ToRadixCanonical(n: nat)
    ensures CanonicalDecimal(ToRadix(n, 10))
  {
    assert ToRadix(0, 10) == "0";
  }

  /** A canonical decimal text is the only one of its value: it is what
      `toString(10)` writes for the number it denotes. */
  lemma {:induction false} CanonicalDecimalUnique(s: string)
    requires CanonicalDecimal(s)
    ensures s == ToRadix(ParseRadix(s, 10), 10)
    decreases |s|
  {
    var c := s[|s| - 1];
    assert DigitChar(DigitValue(c)) == c by {
      assert IsDigit(c, 10);
    }
    if |s| > 1 {
      var p := s[..|s| - 1];
      assert p[0] == s[0] && s[0] != '0';
      CanonicalDecimalUnique(p);
      var m := ParseRadix(p, 10);
      assert ToRadix(0, 10) == "0";
      assert m > 0;
      DivModUnique(ParseRadix(s, 10), 10, m, DigitValue(c));
      assert s == p + [c];
    }
  }

  /** Reading back k fixed digits gives the number modulo radix^k. */
  lemma {:induction false} ParseFixedDigits(n: nat, radix: nat, k: nat)
    requires 2 <= radix <= 16
    ensures ParseRadix(FixedDigits(n, radix, k), radix) == n % Pow(radix, k)
    decreases k
  {
    if k > 0 {
      var q := n / radix;
      ParseRadixSnoc(FixedDigits(q, radix, k - 1), DigitChar(n % radix), radix);
      ParseFixedDigits(q, radix, k - 1);
      RemPowStep(n, radix, k);
    }
  }

  /** A number of at least radix^k is written as its quotient by radix^k
      followed by its last k digits. */
  lemma {:induction false} ToRadixSplit(n: nat, radix: nat, k: nat)
    requires 2 <= radix <= 16 && Pow(radix, k) <= n
    ensures ToRadix(n, radix) == ToRadix(n / Pow(radix, k), radix) + FixedDigits(n, radix, k)
  {
    if k > 0 {
      var p := Pow(radix, k - 1);
      MulMono(radix, 1, p);
      DivBelow(n, radix, p);
      DivDecreases(n, radix);
      ToRadixSplit(n / radix, radix, k - 1);
      ModSplit(n, radix, p);
    }
  }

  /** The last k digits depend only on the remainder modulo radix^k. */
  lemma {:induction false} FixedDigitsMod(n: nat, radix: nat, k: nat)
    ensures 2 <= radix <= 16 ==> FixedDigits(n, radix, k) == FixedDigits(n % Pow(radix, k), radix, k)
    decreases k
  {
    if 2 <= radix <= 16 && k > 0 {
      FixedDigitsMod(n / radix, radix, k - 1);
      ModSplit(n, radix, Pow(radix, k - 1));
    }
  }

  /** A number below radix^k has at most k digits. */
  lemma {:induction false} ToRadixLength(n: nat, radix: nat, k: nat)
    requires 2 <= radix <= 16 && 1 <= k && n < Pow(radix, k)
    ensures |ToRadix(n, radix)| <= k
  {
    assert Pow(radix, 1) == radix;
    if n >= radix {
      DivBelow(n, radix, Pow(radix, k - 1));
      DivDecreases(n, radix);
      ToRadixLength(n / radix, radix, k - 1);
    }
  }

  /** The length of the longest prefix of s made of digits of the radix. */
  function DigitPrefixLength(s: string, radix: nat): (n: nat)
    ensures n <= |s|
    ensures forall i :: 0 <= i < n ==> IsDigit(s[i], radix)
    ensures n < |s| ==> !IsDigit(s[n], radix)
  {
    if s == [] || !IsDigit(s[0], radix) then 0 else 1 + DigitPrefixLength(s[1..], radix)
  }

  /** `parseInt(s, radix)`: the value of the longest prefix of digits, or None
      (JavaScript's NaN) when s does not start with a digit. */
  function ParseInt(s: string, radix: nat): (r: Option<nat>)
    ensures r.None? <==> s == [] || !IsDigit(s[0], radix)
    ensures (forall i :: 0 <= i < |s| ==> IsDigit(s[i], radix)) && s != [] ==> r == Some(ParseRadix(s, radix))
  {
    var n := DigitPrefixLength(s, radix);
    assert n == |s| ==> s[..n] == s;
    if n == 0 then None else Some(ParseRadix(s[..n], radix))
  }

  /** How a number is written into a template string: `${x}`, where NaN
      (None) is written "NaN". */
  function NumberText(r: Option<nat>): string
  {
    match r
    case None => "NaN"
    case Some(n) => ToRadix(n, 10)
  }

  // ---------------------------------------------------------------------------
  // String.prototype operations

  /** Where a `slice` position lands in a string of length len: a negative
      position counts from the end, and the result is clipped to 0..len. */
  function SlicePosition(i: int, len: nat): (r: nat)
    ensures r <= len
    ensures 0 <= i <= len ==> r == i
    ensures i < 0 && -i <= len ==> r == len + i
    ensures i < 0 && -i > len ==> r == 0
    ensures i > len ==> r == len
  {
    if i < 0 then (if len + i < 0 then 0 else len + i)
    else if i > len then len
    else i
  }

  /** `s.slice(start, end)`. */
  function Slice(s: string, start: int, end: int): (r: string)
    ensures |r| == Max(SlicePosition(end, |s|) - SlicePosition(start, |s|), 0)
    ensures forall i :: 0 <= i < |r| ==> r[i] == s[SlicePosition(start, |s|) + i]
  {
    var from, to := SlicePosition(start, |s|), SlicePosition(end, |s|);
    if from < to then s[from..to] else ""
  }

  /** `s.substr(start, length)` for a non-negative start: the characters from
      start on, at most length of them, clipped at the end of s. */
  function Substr(s: string, start: nat, length: nat): (r: string)
    ensures r == s[Min(start, |s|)..Min(start + length, |s|)]
  {
    if start >= |s| then "" else s[start..Min(start + length, |s|)]
  }

  /** `s.padStart(n, c)` with a one-character filler. */
  function PadStart(s: string, n: nat, c: char): (r: string)
    ensures |r| == Max(|s|, n)
    ensures r[|r| - |s|..] == s
    ensures forall i :: 0 <= i < |r| - |s| ==> r[i] == c
  {
    if |s| >= n then s else seq(n - |s|, _ => c) + s
  }

  /** Padding a second time changes nothing. */
  lemma PadStartIdempotent(s: string, n: nat, c: char)
    ensures PadStart(PadStart(s, n, c), n, c) == PadStart(s, n, c)
  {
  }

  /** `s.indexOf(c)` for a one-character separator: the first position of c,
      or -1 when c does not occur. */
  function IndexOf(s: string, c: char): (i: int)
    ensures -1 <= i < |s|
    ensures i == -1 <==> c !in s
    ensures 0 <= i ==> s[i] == c && c !in s[..i]
  {
    if s == [] then -1
    else if s[0] == c then 0
    else
      var j := IndexOf(s[1..], c);
      assert j >= 0 ==> s[1..][..j] == s[1..j + 1];
      if j == -1 then -1 else j + 1
  }

  /** `s.split(c)` for a one-character separator: the pieces between the
      occurrences of c, always at least one. */
  function Split(s: string, c: char): (parts: seq<string>)
    ensures |parts| >= 1
    ensures forall i :: 0 <= i < |parts| ==> c !in parts[i]
  {
    if s == [] then [""]
    else
      var rest := Split(s[1..], c);
      if s[0] == c then [""] + rest else [[s[0]] + rest[0]] + rest[1..]
  }

  /** `parts.join(sep)`. */
  function Join(parts: seq<string>, sep: string): string
  {
    if parts == [] then ""
    else if |parts| == 1 then parts[0]
    else parts[0] + sep + Join(parts[1..], sep)
  }

  /** Joining one more piece puts the separator and the piece at the end. */
  lemma {:induction false} JoinSnoc(parts: seq<string>, x: string, sep: string)
    requires |parts| >= 1
    ensures Join(parts + [x], sep) == Join(parts, sep) + sep + x
  {
    if |parts| == 1 {
      assert (parts + [x])[1..] == [x];
    } else {
      assert (parts + [x])[1..] == parts[1..] + [x];
      JoinSnoc(parts[1..], x, sep);
    }
  }

  /** Four pieces joined with a separator. */
  lemma JoinFour(p: string, q: string, r: string, s: string, sep: string)
    ensures Join([p, q, r, s], sep) == p + sep + q + sep + r + sep + s
  {
    assert [r, s][1..] == [s];
    assert Join([r, s], sep) == r + sep + s;
    assert [q, r, s][1..] == [r, s];
    assert Join([q, r, s], sep) == q + sep + (r + sep + s);
    assert [p, q, r, s][1..] == [q, r, s];
  }

  /** Four pieces without the separator, joined by it, split back into the
      four. */
  lemma SplitFour(p: string, q: string, r: string, s: string, c: char)
    requires c !in p && c !in q && c !in r && c !in s
    ensures Split(p + [c] + q + [c] + r + [c] + s, c) == [p, q, r, s]
  {
    JoinFour(p, q, r, s, [c]);
    SplitJoin([p, q, r, s], c);
  }

  /** Joining the pieces of a split with the separator gives back the string. */
  lemma {:induction false} JoinSplit(s: string, c: char)
    ensures Join(Split(s, c), [c]) == s
  {
    if s != [] {
      var rest := Split(s[1..], c);
      JoinSplit(s[1..], c);
      if s[0] == c {
        assert ([""] + rest)[1..] == rest;
      } else if |rest| > 1 {
        assert ([[s[0]] + rest[0]] + rest[1..])[1..] == rest[1..];
      }
    }
  }

  /** A piece free of the separator, a separator and a tail split into the
      piece followed by the pieces of the tail. */
  lemma {:induction false} SplitAfterPiece(p: string, c: char, t: string)
    requires c !in p
    ensures Split(p + [c] + t, c) == [p] + Split(t, c)
  {
    if p == [] {
      assert ([c] + t)[1..] == t;
    } else {
      var s := p + [c] + t;
      assert s[0] == p[0] && s[1..] == p[1..] + [c] + t;
      SplitAfterPiece(p[1..], c, t);
      assert [p[0]] + p[1..] == p;
    }
  }

  /** A piece free of the separator splits into itself. */
  lemma {:induction false} SplitNoSeparator(p: string, c: char)
    requires c !in p
    ensures Split(p, c) == [p]
  {
    if p != [] {
      SplitNoSeparator(p[1..], c);
      assert [p[0]] + p[1..] == p;
    }
  }

  /** Splitting a join of pieces free of the separator gives back the pieces. */
  lemma {:induction false} SplitJoin(parts: seq<string>, c: char)
    requires |parts| >= 1
    requires forall i :: 0 <= i < |parts| ==> c !in parts[i]
    ensures Split(Join(parts, [c]), c) == parts
  {
    if |parts| == 1 {
      SplitNoSeparator(parts[0], c);
    } else {
      SplitJoin(parts[1..], c);
      SplitAfterPiece(parts[0], c, Join(parts[1..], [c]));
    }
  }

  /** `Array.prototype.reverse` on a fresh array, as a value. */
  function Reverse<T>(s: seq<T>): (r: seq<T>)
    ensures |r| == |s|
    ensures forall i :: 0 <= i < |s| ==> r[i] == s[|s| - 1 - i]
  {
    if s == [] then [] else Reverse(s[1..]) + [s[0]]
  }

  /** The pieces written one after another. */
  function Concat(parts: seq<string>): string
  {
    if parts == [] then "" else Concat(parts[..|parts| - 1]) + parts[|parts| - 1]
  }

  /** The sum of a sequence of lengths. */
  function Sum(lens: seq<nat>): nat
  {
    if lens == [] then 0 else Sum(lens[..|lens| - 1]) + lens[|lens| - 1]
  }
}
