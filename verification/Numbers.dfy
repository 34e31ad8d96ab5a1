/**
 Printing and parsing numbers (loader/shared/convtoascii.c, loader/shared/safeparsemaxint.c).
 */
module Numbers {
  import opened Common
  import opened Strings


  // ---------- Printing ----------

  function DigitChar(d: nat): char
    requires d < 16
  {
    if d > 9 then (d + 'a' as int - 10) as char else (d + '0' as int) as char
  }

  function Quot(n: nat, base: nat): (q: nat)
    requires base == 10 || base == 16
    ensures q <= n && (n > 0 ==> q < n)
  {
    if base == 10 then n / 10 else n / 16
  }

  function Rem(n: nat, base: nat): (r: nat)
    requires base == 10 || base == 16
    ensures r < base && n == Quot(n, base) * base + r
  {
    if base == 10 then n % 10 else n % 16
  }

  /** The digits of `n` to the given base, last digit first. */
  function ReversedDigits(n: nat, base: nat): (s: string)
    requires base == 10 || base == 16
    ensures s != ""
  {
    [DigitChar(Rem(n, base))] + if n < base then "" else ReversedDigits(Quot(n, base), base)
  }

  function Digits(n: nat, base: nat): (s: string)
    requires base == 10 || base == 16
    ensures s != ""
  {
    if n < base then [DigitChar(n)] else Digits(Quot(n, base), base) + [DigitChar(Rem(n, base))]
  }

  function Reverse(s: string): (r: string)
    ensures |r| == |s| && forall i :: 0 <= i < |s| ==> r[i] == s[|s| - 1 - i]
  {
    seq<char>(|s|, i requires 0 <= i < |s| => s[|s| - 1 - i])
  }

  lemma {:induction false} ReversedDigitsAreDigits(n: nat, base: nat)
    requires base == 10 || base == 16
    ensures Reverse(ReversedDigits(n, base)) == Digits(n, base)
  {
    if n >= base {
      ReversedDigitsAreDigits(Quot(n, base), base);
      var r := ReversedDigits(Quot(n, base), base);
      assert Reverse([DigitChar(Rem(n, base))] + r) == Reverse(r) + [DigitChar(Rem(n, base))];
    } else {
      assert Reverse([DigitChar(n)]) == [DigitChar(n)];
    }
  }

  /** What a conversion prints: 'x' and 'X' to base 16; 'd' as a signed number; anything else unsigned. */
  function Ascii(c: char, num: Word): string {
    if c == 'x' || c == 'X' then Digits(num, 16)
    else if c == 'd' && num >= 0x8000_0000 then "-" + Digits(0x1_0000_0000 - num, 10)
    else Digits(num, 10)
  }

  /** Turns the characters from `from` up to `end` around, in place. */
  method ReverseInPlace(buf: array<char>, from: nat, end: nat)
    requires from < end <= buf.Length
    modifies buf
    ensures buf[..from] == old(buf[..from]) && buf[from..end] == Reverse(old(buf[from..end]))
  {
    var ptr1, ptr2 := end - 1, from;
    while ptr1 > ptr2
      invariant from <= ptr2 <= ptr1 + 1 && ptr1 < end && ptr1 - (end - 1) == from - ptr2
      invariant buf[..from] == old(buf[..from])
      invariant forall i :: from <= i < ptr2 || ptr1 < i < end ==> buf[i] == old(buf[end - 1 - (i - from)])
      invariant forall i :: ptr2 <= i <= ptr1 ==> buf[i] == old(buf[i])
    {
      buf[ptr1], buf[ptr2] := buf[ptr2], buf[ptr1];
      ptr1, ptr2 := ptr1 - 1, ptr2 + 1;
    }
    assert forall i :: from <= i < end ==> buf[i] == old(buf[end - 1 - (i - from)]);
    forall i | 0 <= i < end - from
      ensures buf[from..end][i] == Reverse(old(buf[from..end]))[i]
    {
      assert buf[from..end][i] == buf[from + i] == old(buf[end - 1 - i]);
    }
  }

  /** The digit loop: last digit first. */
  method WriteDigits(buf: array<char>, from: nat, number: nat, mult: nat) returns (end: nat)
    requires mult == 10 || mult == 16
    requires from + |ReversedDigits(number, mult)| <= buf.Length
    modifies buf
    ensures from < end <= buf.Length && buf[..from] == old(buf[..from])
    ensures buf[from..end] == ReversedDigits(number, mult)
  {
    var num := number;
    end := from;
    while true
      invariant 0 <= num && from <= end && end - from + |ReversedDigits(num, mult)| == |ReversedDigits(number, mult)|
      invariant buf[..from] == old(buf[..from])
      invariant buf[from..end] + ReversedDigits(num, mult) == ReversedDigits(number, mult)
      decreases num
    {
      ghost var sofar, rest := buf[from..end], if num < mult then "" else ReversedDigits(Quot(num, mult), mult);
      buf[end] := DigitChar(Rem(num, mult));
      Assoc(sofar, [DigitChar(Rem(num, mult))], rest);
      end := end + 1;
      assert buf[from..end] == sofar + [DigitChar(Rem(num, mult))];
      if num < mult {
        assert buf[from..end] + "" == buf[from..end];
        break;
      }
      num := Quot(num, mult);
    }
  }

  method ConvertToAscii(buf: array<char>, c: char, number: Word) returns (end: nat)
    requires buf.Length >= |Ascii(c, number)|
    modifies buf
    ensures end <= buf.Length && buf[..end] == Ascii(c, number)
  {
    var num, mult: nat := number, 10;
    if c == 'x' || c == 'X' {
      mult := 16;
    }
    var from := 0;
    if num >= 0x8000_0000 && c == 'd' {
      num := 0x1_0000_0000 - num;
      buf[0] := '-';
      from := 1;
    }
    ReversedDigitsAreDigits(num, mult);
    end := WriteDigits(buf, from, num, mult);
    ReverseInPlace(buf, from, end);
    assert buf[..end] == buf[..from] + buf[from..end];
    assert from == 0 ==> buf[..from] == "";
  }

  // ---------- Parsing ----------

  function ToLower(c: char): char { if 'A' <= c <= 'Z' then (c as int + 0x20) as char else c }

  /** The value of a digit to the given base, or -1. */
  function DigitValue(c: char, base: nat): (d: int)
    ensures -1 <= d < 16 && (base == 10 ==> d < 10)
  {
    var l := ToLower(c);
    if '0' <= l <= '9' then l as int - '0' as int
    else if base == 16 && 'a' <= l <= 'f' then l as int - 'a' as int + 10
    else -1
  }

  predicate IsDigit(c: char, base: nat) { DigitValue(c, base) >= 0 }

  /** How many digits follow from position `i` on. */
  function DigitRun(s: string, i: nat, base: nat): (k: nat)
    ensures i + k <= |s| || k == 0
    decreases |s| - i
  {
    if i < |s| && IsDigit(s[i], base) then 1 + DigitRun(s, i + 1, base) else 0
  }

  function DigitAt(s: string, i: nat, base: nat): (d: nat)
    ensures d < 16 && (base == 10 ==> d < 10)
  {
    var v := DigitValue(CharAt(s, i), base);
    if v >= 0 then v else 0
  }

  function Times(n: nat, base: nat): nat { if base == 16 then n * 16 else n * 10 }

  /** The number the first `k` digits from position `i` on stand for. */
  function Value(s: string, i: nat, k: nat, base: nat): (n: nat)
    decreases k
  {
    if k == 0 then 0 else Times(Value(s, i, k - 1, base), base) + DigitAt(s, i + k - 1, base)
  }

  lemma {:induction false} AtRun(s: string, i: nat, j: nat, base: nat)
    requires j <= DigitRun(s, i, base)
    ensures IsDigit(CharAt(s, i + j), base) <==> j < DigitRun(s, i, base)
    decreases j
  {
    if j > 0 {
      AtRun(s, i + 1, j - 1, base);
    }
  }

  /** A number starts at `i`: its base, and where its digits start. */
  function BaseAt(s: string, i: nat): nat { if CharAt(s, i) == '0' && ToLower(CharAt(s, i + 1)) == 'x' then 16 else 10 }
  function StartOf(s: string, i: nat): nat { if BaseAt(s, i) == 16 then i + 2 else i }

  /** The number at `i` and the position behind it: all digits count, there must be one, and the number must
      not exceed MAXINT. */
  function Parse(s: string, i: nat): (r: Option<(nat, nat)>)
    ensures r.Some? ==> r.value.0 <= MAXINT && r.value.1 > i
  {
    var base, start := BaseAt(s, i), StartOf(s, i);
    var k := DigitRun(s, start, base);
    if k > 0 && Value(s, start, k, base) <= MAXINT then Some((Value(s, start, k, base), start + k)) else None
  }

  lemma {:induction false} ValueGrows(s: string, i: nat, j: nat, k: nat, base: nat)
    requires j <= k
    ensures Value(s, i, j, base) <= Value(s, i, k, base)
    decreases k
  {
    if j < k {
      ValueGrows(s, i, j, k - 1, base);
    }
  }

  datatype Taken = NoDigit | Overflow | Taken(n: nat)

  /** One round of the loop: `n` is the value of `k` digits from position `i` on. The overflow test is exact. */
  method TakeDigit(s: string, i: nat, k: nat, n: nat, mult: nat) returns (r: Taken)
    requires n == Value(s, i, k, mult) && (mult == 10 || mult == 16)
    ensures r == if !IsDigit(CharAt(s, i + k), mult) then NoDigit
                 else if Value(s, i, k + 1, mult) > MAXINT then Overflow
                 else Taken(Value(s, i, k + 1, mult))
  {
    var digit := DigitValue(CharAt(s, i + k), mult);
    if digit < 0 {
      return NoDigit;
    }
    if n > (MAXINT - digit) / mult {
      return Overflow;
    }
    r := Taken(n * mult + digit);
  }

  method SafeParseMaxint(s: string, at: nat) returns (r: Option<(nat, nat)>)
    ensures r == Parse(s, at)
  {
    var ptr, mult := at, 10;
    if CharAt(s, ptr) == '0' && ToLower(CharAt(s, ptr + 1)) == 'x' {
      ptr, mult := ptr + 2, 16;
    }
    var myint: nat, found := 0, false;
    var start := ptr;
    ghost var k := DigitRun(s, ptr, mult);
    while true
      invariant start <= ptr <= start + k && myint == Value(s, start, ptr - start, mult) && myint <= MAXINT
      invariant found <==> ptr > start
      decreases start + k - ptr
    {
      AtRun(s, start, ptr - start, mult);
      var taken := TakeDigit(s, start, ptr - start, myint, mult);
      if taken.NoDigit? {
        break;
      }
      found := true;
      ValueGrows(s, start, ptr - start + 1, k, mult);
      if taken.Overflow? {
        return None;
      }
      myint := taken.n;
      ptr := ptr + 1;
    }
    r := if found then Some((myint, ptr)) else None;
  }

  // ---------- Parsing what was printed ----------

  predicate At(s: string, i: nat, t: string) { i + |t| <= |s| && s[i..i + |t|] == t }

  lemma {:induction false} DigitsAreDigits(n: nat, base: nat)
    requires base == 10 || base == 16
    ensures forall j :: 0 <= j < |Digits(n, base)| ==> IsDigit(Digits(n, base)[j], base)
  {
    if n >= base {
      DigitsAreDigits(Quot(n, base), base);
    }
  }

  lemma DigitCharValue(d: nat, base: nat)
    requires d < base && (base == 10 || base == 16)
    ensures DigitValue(DigitChar(d), base) == d
  {
  }

  lemma {:induction false} RunCovers(s: string, i: nat, k: nat, base: nat)
    requires i + k <= |s| && forall j :: i <= j < i + k ==> IsDigit(s[j], base)
    requires !IsDigit(CharAt(s, i + k), base)
    ensures DigitRun(s, i, base) == k
    decreases k
  {
    if k > 0 {
      RunCovers(s, i + 1, k - 1, base);
    }
  }

  lemma {:induction false} ValueOfDigits(s: string, i: nat, n: nat, base: nat)
    requires (base == 10 || base == 16) && At(s, i, Digits(n, base))
    ensures Value(s, i, |Digits(n, base)|, base) == n
    decreases n
  {
    var d := Digits(n, base);
    assert s[i + |d| - 1] == s[i..i + |d|][|d| - 1] == d[|d| - 1];
    if n >= base {
      var q := Digits(Quot(n, base), base);
      assert s[i..i + |q|] == s[i..i + |d|][..|q|] == q;
      ValueOfDigits(s, i, Quot(n, base), base);
      DigitCharValue(Rem(n, base), base);
    } else {
      DigitCharValue(n, base);
      assert Value(s, i, 0, base) == 0;
    }
  }

  /** A printed number parses back to itself, up to the first character behind it. */
  lemma {:induction false} ParsePrinted(s: string, i: nat, n: nat)
    requires n <= MAXINT && At(s, i, Digits(n, 10))
    requires var c := CharAt(s, i + |Digits(n, 10)|); !IsDigit(c, 10) && ToLower(c) != 'x'
    ensures Parse(s, i) == Some((n, i + |Digits(n, 10)|))
  {
    var d := Digits(n, 10);
    DigitsAreDigits(n, 10);
    forall j | i <= j < i + |d|
      ensures IsDigit(s[j], 10)
    {
      assert s[j] == s[i..i + |d|][j - i];
    }
    RunCovers(s, i, |d|, 10);
    ValueOfDigits(s, i, n, 10);
    assert IsDigit(s[i], 10);
    if |d| > 1 {
      assert IsDigit(s[i + 1], 10);
    }
  }

  predicate NotNumeric(t: string) { t == "" || (!IsDigit(t[0], 10) && ToLower(t[0]) != 'x') }

  lemma NextChar(s: string, p: nat, t: string)
    requires Reads(s, p, t)
    ensures CharAt(s, p) == if t == "" then '\0' else t[0]
  {
    assert t != "" ==> s[p + 0] == t[0];
  }

  /** `a` prints `n`: in front of anything but a digit it is parsed as `n`. */
  ghost predicate Numeral(a: string, n: nat) {
    forall s, p: nat, t {:trigger Reads(s, p, a + t)} | Reads(s, p, a + t) && NotNumeric(t) ::
      && Parse(s, p) == Some((n, p + |a|)) && Reads(s, p + |a|, t)
      && CharAt(s, p + |a|) == if t == "" then '\0' else t[0]
  }

  lemma {:induction false} DigitsAreNumeral(n: nat)
    requires n <= MAXINT
    ensures Numeral(Digits(n, 10), n)
  {
    forall s, p: nat, t | Reads(s, p, Digits(n, 10) + t) && NotNumeric(t)
      ensures Parse(s, p) == Some((n, p + |Digits(n, 10)|)) && Reads(s, p + |Digits(n, 10)|, t)
      ensures CharAt(s, p + |Digits(n, 10)|) == if t == "" then '\0' else t[0]
    {
      ReadsOn(s, p, Digits(n, 10), t);
      NextChar(s, p + |Digits(n, 10)|, t);
      ParsePrinted(s, p, n);
    }
  }
}
