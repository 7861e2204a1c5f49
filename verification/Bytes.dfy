/** Searching and reading numbers in received text. */
module Bytes {
  import opened Prelude

  const CRLF: seq<byte> := [0x0D, 0x0A]
  const CRLF_CRLF: seq<byte> := [0x0D, 0x0A, 0x0D, 0x0A]
  const SPACE: seq<byte> := [0x20]

  /** "Content-Length: " */
  const CONTENT_LENGTH: seq<byte> :=
    [0x43, 0x6F, 0x6E, 0x74, 0x65, 0x6E, 0x74, 0x2D, 0x4C, 0x65, 0x6E, 0x67, 0x74, 0x68, 0x3A, 0x20]

  /** A text in ASCII. */
  function Ascii(text: string): (s: seq<byte>)
    ensures |s| == |text| && forall k :: 0 <= k < |s| && text[k] as int < 0x100 ==> s[k] == text[k] as int
  {
    seq(|text|, k requires 0 <= k < |text| => if text[k] as int < 0x100 then text[k] as int else 0x3F)
  }

  lemma Texts(c: byte)
    ensures CONTENT_LENGTH == Ascii("Content-Length: ") && CRLF == Ascii("\r\n") && CRLF_CRLF == Ascii("\r\n\r\n")
    ensures IsDigit(c) <==> c in Ascii("0123456789")
  {
    var digits := Ascii("0123456789");
    if IsDigit(c) {
      assert digits[c - 0x30] == c;
    }
  }

  predicate At(s: seq<byte>, pat: seq<byte>, i: nat) {
    i + |pat| <= |s| && s[i..i + |pat|] == pat
  }

  /** pbuf_memfind: the first place from `i` on where `pat` stands. */
  function Find(s: seq<byte>, pat: seq<byte>, i: nat): (r: Option<nat>)
    ensures r.Some? ==> i <= r.value && At(s, pat, r.value) && forall j :: i <= j < r.value ==> !At(s, pat, j)
    ensures r == None ==> forall j: nat :: i <= j ==> !At(s, pat, j)
    decreases |s| - i
  {
    if i + |pat| > |s| then None else if At(s, pat, i) then Some(i) else Find(s, pat, i + 1)
  }

  lemma FindIs(s: seq<byte>, pat: seq<byte>, i: nat, k: nat)
    requires i <= k && At(s, pat, k) && forall j :: i <= j < k ==> !At(s, pat, j)
    ensures Find(s, pat, i) == Some(k)
  {
  }

  lemma NotAt(s: seq<byte>, pat: seq<byte>, j: nat)
    requires pat != [] && (j < |s| ==> s[j] != pat[0])
    ensures !At(s, pat, j)
  {
    assert j + |pat| <= |s| ==> s[j..j + |pat|][0] == s[j];
  }

  /** More bytes at the end do not move what has been found. */
  lemma FindStable(s: seq<byte>, t: seq<byte>, pat: seq<byte>, i: nat)
    requires Find(s, pat, i).Some?
    ensures Find(s + t, pat, i) == Find(s, pat, i)
  {
    var k := Find(s, pat, i).value;
    forall j: nat | j <= k ensures At(s + t, pat, j) == At(s, pat, j) {
      assert (s + t)[j..j + |pat|] == s[j..j + |pat|];
    }
    FindIs(s + t, pat, i, k);
  }

  /** The C string held in a buffer: everything before the first zero byte. */
  function CString(s: seq<byte>): (r: seq<byte>)
    ensures |r| <= |s|
  {
    if s == [] || s[0] == 0 then [] else [s[0]] + CString(s[1..])
  }

  lemma {:induction false} CStringOfPrefix(s: seq<byte>, n: nat)
    requires n < |s| && s[n] == 0
    ensures CString(s) == CString(s[..n])
  {
    if n > 0 && s[0] != 0 {
      assert s[..n][1..] == s[1..][..n - 1];
      CStringOfPrefix(s[1..], n - 1);
    }
  }

  lemma {:induction false} CStringBehind(s: seq<byte>, t: seq<byte>)
    requires 0 !in s
    ensures CString(s + t) == s + CString(t)
  {
    if s == [] {
      assert s + t == t;
    } else {
      assert (s + t)[1..] == s[1..] + t;
      CStringBehind(s[1..], t);
    }
  }

  predicate IsDigit(c: byte) {
    0x30 <= c <= 0x39
  }

  /** The value of the digits that `s` starts with. */
  function Number(s: seq<byte>, acc: nat): nat {
    if s == [] || !IsDigit(s[0]) then acc else Number(s[1..], 10 * acc + s[0] - 0x30)
  }

  /** atoi */
  function Atoi(s: seq<byte>): (r: int) {
    if s == [] then 0
    else if s[0] == 0x20 || 0x09 <= s[0] <= 0x0D then Atoi(s[1..])
    else if s[0] == 0x2D then 0 - Number(s[1..], 0) as int
    else if s[0] == 0x2B then Number(s[1..], 0)
    else Number(s, 0)
  }

  /** Decimal digits, as lwip_itoa writes them. */
  function Digits(n: nat): (s: seq<byte>) {
    if n < 10 then [0x30 + n] else Digits(n / 10) + [0x30 + n % 10]
  }

  predicate AllDigits(s: seq<byte>) {
    s != [] && forall k :: 0 <= k < |s| ==> IsDigit(s[k])
  }

  function Pow10(n: nat): (r: nat)
    ensures r > 0
  {
    if n == 0 then 1 else 10 * Pow10(n - 1)
  }

  /** The value of digits that are followed by something else is their own, and it has no more
      digits than were written. */
  lemma {:induction false} NumberOfDigits(s: seq<byte>, t: seq<byte>, acc: nat)
    requires (forall k :: 0 <= k < |s| ==> IsDigit(s[k])) && (t != [] ==> !IsDigit(t[0]))
    ensures Number(s + t, acc) == Number(s, acc) < (acc + 1) * Pow10(|s|)
  {
    if s == [] {
      assert s + t == t;
    } else {
      var next := 10 * acc + s[0] - 0x30;
      assert (s + t)[1..] == s[1..] + t;
      NumberOfDigits(s[1..], t, next);
      TenTimes(next + 1, acc + 1, Pow10(|s| - 1));
    }
  }

  lemma TenTimes(a: nat, b: nat, p: nat)
    requires a <= 10 * b
    ensures a * p <= b * (10 * p)
  {
    assert b * (10 * p) == 10 * b * p;
  }

  /** One more digit counts once, and everything before it ten times. */
  lemma {:induction false} NumberGrows(s: seq<byte>, c: byte, acc: nat)
    requires (forall k :: 0 <= k < |s| ==> IsDigit(s[k])) && IsDigit(c)
    ensures Number(s + [c], acc) == 10 * Number(s, acc) + (c - 0x30)
    ensures Number([], acc) == acc
  {
    if s == [] {
      assert s + [c] == [c] && [c][1..] == [];
    } else {
      assert (s + [c])[1..] == s[1..] + [c];
      NumberGrows(s[1..], c, 10 * acc + s[0] - 0x30);
    }
  }

  /** Digits are read as the number for which they were written; there are no leading zeros. */
  lemma {:induction false} DigitsRead(n: nat)
    ensures AllDigits(Digits(n)) && Number(Digits(n), 0) == n
    ensures n >= 10 ==> Digits(n)[0] != 0x30
    ensures n < 10 ==> |Digits(n)| == 1
  {
    if n < 10 {
      NumberGrows([], 0x30 + n, 0);
      assert [] + [0x30 + n] == [0x30 + n];
    } else {
      DigitsRead(n / 10);
      NumberGrows(Digits(n / 10), 0x30 + n % 10, 0);
    }
  }

  lemma {:induction false} DigitsCount(n: nat, k: nat)
    requires k > 0
    ensures |Digits(n)| <= k <==> n < Pow10(k)
  {
    if k == 1 {
      assert Pow10(1) == 10;
      DigitsRead(n);
      if n >= 10 {
        DigitsRead(n / 10);
      }
    } else if n >= 10 {
      DigitsCount(n / 10, k - 1);
    }
  }

  /** Nothing else is read as that number but for leading zeros. */
  lemma {:induction false} DigitsWritten(s: seq<byte>)
    requires AllDigits(s) && (|s| > 1 ==> s[0] != 0x30)
    ensures s == Digits(Number(s, 0)) && (s[0] != 0x30 ==> Number(s, 0) > 0)
    decreases |s|
  {
    var n := |s| - 1;
    var rest := s[..n];
    assert s == rest + [s[n]];
    NumberGrows(rest, s[n], 0);
    DigitsStep(if n > 0 then Number(rest, 0) else 0, s[n]);
    if n > 0 {
      DigitsWritten(rest);
      assert rest[0] == s[0];
    } else {
      assert rest == [];
    }
    hide Number, Digits;
  }

  lemma DigitsStep(m: nat, c: byte)
    requires IsDigit(c)
    ensures Digits(10 * m + (c - 0x30)) == if m > 0 then Digits(m) + [c] else [c]
  {
    assert (10 * m + (c - 0x30)) / 10 == m;
  }

  lemma {:induction false} AtoiSkips(pre: seq<byte>, s: seq<byte>)
    requires forall k :: 0 <= k < |pre| ==> pre[k] == 0x20 || 0x09 <= pre[k] <= 0x0D
    ensures Atoi(pre + s) == Atoi(s)
  {
    if pre == [] {
      assert pre + s == s;
    } else {
      assert (pre + s)[1..] == pre[1..] + s;
      AtoiSkips(pre[1..], s);
    }
  }

  /** atoi reads blanks, a sign and a number, up to what is no digit. */
  lemma AtoiRead(pre: seq<byte>, n: nat, t: seq<byte>)
    requires forall k :: 0 <= k < |pre| ==> pre[k] == 0x20 || 0x09 <= pre[k] <= 0x0D
    requires t != [] ==> !IsDigit(t[0])
    ensures Atoi(pre + (Digits(n) + t)) == n
    ensures Atoi(pre + ([0x2D] + (Digits(n) + t))) == 0 - n
    ensures Atoi(pre + ([0x2B] + (Digits(n) + t))) == n
  {
    var s := Digits(n) + t;
    DigitsRead(n);
    NumberOfDigits(Digits(n), t, 0);
    AtoiSkips(pre, s);
    AtoiSkips(pre, [0x2D] + s);
    AtoiSkips(pre, [0x2B] + s);
    assert ([0x2D] + s)[1..] == s && ([0x2B] + s)[1..] == s;
    assert s[0] == Digits(n)[0];
  }
}
