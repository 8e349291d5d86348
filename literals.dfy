/** The text the two splash packers print: decimal numbers, "0xHH" byte tokens and the
    token list of a C array initialiser (splash/make_splash.py, extras/make_splash.py). */
module Literals {
  import opened Profiles

  // ---------------------------------------------------------------------------
  // Decimal numbers ('{:d}'.format(n))

  function Digit(d: nat): (c: char)
    requires d < 10
    ensures '0' <= c <= '9'
  {
    ('0' as int + d) as char
  }

  predicate AllDigits(s: string)
  {
    forall i | 0 <= i < |s| :: '0' <= s[i] <= '9'
  }

  /** The decimal digits of n, most significant first, with no leading zero. */
  function Decimal(n: nat): (s: string)
    ensures |s| > 0 && AllDigits(s)
    ensures s[0] == '0' <==> n == 0
  {
    if n < 10 then [Digit(n)] else Decimal(n / 10) + [Digit(n % 10)]
  }

  /** Reading decimal digits back. */
  function DecimalValue(s: string): nat
    requires AllDigits(s)
  {
    if |s| == 0 then 0 else 10 * DecimalValue(s[..|s| - 1]) + (s[|s| - 1] as int - '0' as int)
  }

  lemma {:induction false} DecimalRoundTrip(n: nat)
    ensures DecimalValue(Decimal(n)) == n
  {
    if n >= 10 {
      DecimalRoundTrip(n / 10);
      var s := Decimal(n);
      assert s[..|s| - 1] == Decimal(n / 10);
    }
  }

  // ---------------------------------------------------------------------------
  // Byte tokens ('0x{:02X}'.format(b))

  /** An upper-case hexadecimal digit. */
  function HexDigit(d: nat): (c: char)
    requires d < 16
    ensures '0' <= c <= '9' || 'A' <= c <= 'F'
  {
    if d < 10 then ('0' as int + d) as char else ('A' as int + (d - 10)) as char
  }

  function HexDigitValue(c: char): int
  {
    if '0' <= c <= '9' then c as int - '0' as int else c as int - 'A' as int + 10
  }

  /** "0x" and the two upper-case hexadecimal digits of b. */
  function Hex2(b: Byte): (s: string)
    ensures |s| == 4 && s[0] == '0' && s[1] == 'x'
    ensures forall i | 2 <= i < 4 :: '0' <= s[i] <= '9' || 'A' <= s[i] <= 'F'
  {
    "0x" + [HexDigit(b as int / 16), HexDigit(b as int % 16)]
  }

  function Hex2Value(s: string): int
    requires |s| == 4
  {
    16 * HexDigitValue(s[2]) + HexDigitValue(s[3])
  }

  /** A token reads back as the byte it was made from. */
  lemma Hex2RoundTrip(b: Byte)
    ensures Hex2Value(Hex2(b)) == b as int
  {
    var hi, lo := b as int / 16, b as int % 16;
    assert HexDigitValue(HexDigit(hi)) == hi;
    assert HexDigitValue(HexDigit(lo)) == lo;
  }

  /** Different bytes give different tokens. */
  lemma Hex2Injective(a: Byte, b: Byte)
    requires Hex2(a) == Hex2(b)
    ensures a == b
  {
    Hex2RoundTrip(a);
    Hex2RoundTrip(b);
  }

  // ---------------------------------------------------------------------------
  // Token lists

  /** The place of token k in its line of sixteen; it is k % 16 (LinePosIsMod). */
  function LinePos(k: nat): nat
  {
    if k < 16 then k else LinePos(k - 16)
  }

  lemma {:induction false} LinePosIsMod(k: nat)
    ensures LinePos(k) == k % 16
  {
    if k >= 16 {
      LinePosIsMod(k - 16);
    }
  }

  /** The tokens after a line start take the places 1, 2, ... of its line. */
  lemma {:induction false} LinePosShift(c: nat, r: nat)
    requires LinePos(c) == 0 && r < 16
    ensures LinePos(c + r) == r
  {
    if c >= 16 {
      LinePosShift(c - 16, r);
    }
  }

  /** What separates token k - 1 from token k: a comma and the line break before every
      16th token, a comma and a space otherwise. */
  function Between(k: nat, lineBreak: string): string
  {
    if LinePos(k) == 0 then "," + lineBreak else ", "
  }

  /** The tokens of the first n bytes of bs, in index order, sixteen to a line. */
  function Listed(bs: seq<Byte>, n: nat, lineBreak: string): (s: string)
    requires 1 <= n <= |bs|
  {
    if n == 1 then Hex2(bs[0]) else Listed(bs, n - 1, lineBreak) + Between(n - 1, lineBreak) + Hex2(bs[n - 1])
  }

  /** ', '.join(ts) */
  function Join(ts: seq<string>): string
  {
    if |ts| == 0 then "" else if |ts| == 1 then ts[0] else Join(ts[..|ts| - 1]) + ", " + ts[|ts| - 1]
  }

  /** The list as printed so far when the first c tokens are out and more follow. */
  function ListedBefore(bs: seq<Byte>, c: nat, lineBreak: string): string
    requires c <= |bs|
  {
    if c == 0 then "" else Listed(bs, c, lineBreak) + "," + lineBreak
  }

  lemma Regroup(a: string, b: string, c: string, d: string)
    ensures a + (b + c + d) == (a + b) + c + d
    ensures a + b + c + d == a + (b + c) + d
  {
  }

  /** A line of at most 16 tokens, joined with ", ", continues the list from a line start. */
  lemma {:induction false} JoinedLine(bs: seq<Byte>, ts: seq<string>, c: nat, k: nat, lineBreak: string)
    requires LinePos(c) == 0 && 1 <= k <= 16 && c + k <= |bs| && c + k <= |ts|
    requires forall i | c <= i < c + k :: ts[i] == Hex2(bs[i])
    ensures ListedBefore(bs, c, lineBreak) + Join(ts[c..c + k]) == Listed(bs, c + k, lineBreak)
    decreases k
  {
    if k == 1 {
      JoinedFirst(bs, ts, c, lineBreak);
    } else {
      assert ts[c + k - 1] == Hex2(bs[c + k - 1]);
      JoinedLine(bs, ts, c, k - 1, lineBreak);
      JoinedNext(bs, ts, c, k, lineBreak);
    }
  }

  lemma JoinedFirst(bs: seq<Byte>, ts: seq<string>, c: nat, lineBreak: string)
    requires LinePos(c) == 0 && c < |bs| && c < |ts| && ts[c] == Hex2(bs[c])
    ensures ListedBefore(bs, c, lineBreak) + Join(ts[c..c + 1]) == Listed(bs, c + 1, lineBreak)
  {
    assert Join(ts[c..c + 1]) == Hex2(bs[c]) by {
      assert ts[c..c + 1] == [ts[c]];
    }
    if c > 0 {
      assert Between(c, lineBreak) == "," + lineBreak;
      Regroup(Listed(bs, c, lineBreak), ",", lineBreak, Hex2(bs[c]));
    }
  }

  lemma JoinedNext(bs: seq<Byte>, ts: seq<string>, c: nat, k: nat, lineBreak: string)
    requires LinePos(c) == 0 && 2 <= k <= 16 && c + k <= |bs| && c + k <= |ts|
    requires ts[c + k - 1] == Hex2(bs[c + k - 1])
    requires ListedBefore(bs, c, lineBreak) + Join(ts[c..c + k - 1]) == Listed(bs, c + k - 1, lineBreak)
    ensures ListedBefore(bs, c, lineBreak) + Join(ts[c..c + k]) == Listed(bs, c + k, lineBreak)
  {
    var before, last := ListedBefore(bs, c, lineBreak), ts[c + k - 1];
    var shorter, longer := Join(ts[c..c + k - 1]), Join(ts[c..c + k]);
    JoinStep(ts, c, k);
    assert longer == shorter + ", " + last;
    assert Between(c + k - 1, lineBreak) == ", " by {
      LinePosShift(c, k - 1);
    }
    assert Listed(bs, c + k, lineBreak) == Listed(bs, c + k - 1, lineBreak) + ", " + last;
    Regroup(before, shorter, ", ", last);
  }

  lemma JoinStep(ts: seq<string>, c: nat, k: nat)
    requires 2 <= k && c + k <= |ts|
    ensures Join(ts[c..c + k]) == Join(ts[c..c + k - 1]) + ", " + ts[c + k - 1]
  {
    assert ts[c..c + k][..k - 1] == ts[c..c + k - 1];
  }

  /** Where token k starts in a list whose line breaks are breakLength characters long:
      after each earlier token its four characters and the separator that follows it. */
  function TokenOffset(k: nat, breakLength: nat): nat
    requires breakLength >= 1
  {
    if k == 0 then 0 else TokenOffset(k - 1, breakLength) + 4 + (if LinePos(k) == 0 then 1 + breakLength else 2)
  }

  /** Six characters per earlier token ("0xHH, "), and breakLength - 1 more per earlier line. */
  lemma {:induction false} TokenOffsetClosed(k: nat, breakLength: nat)
    requires breakLength >= 1
    ensures TokenOffset(k, breakLength) == 6 * k + (k / 16) * (breakLength - 1)
  {
    if k > 0 {
      TokenOffsetClosed(k - 1, breakLength);
      LinePosIsMod(k);
      var d := breakLength - 1;
      if k % 16 == 0 {
        assert k / 16 == (k - 1) / 16 + 1;
        assert (k / 16) * d == ((k - 1) / 16) * d + d;
      } else {
        assert k / 16 == (k - 1) / 16;
      }
    }
  }

  /** The list of n tokens ends with token n - 1, which starts at its offset. */
  lemma {:induction false} ListedEnd(bs: seq<Byte>, n: nat, lineBreak: string)
    requires 1 <= n <= |bs| && |lineBreak| >= 1
    ensures |Listed(bs, n, lineBreak)| == TokenOffset(n - 1, |lineBreak|) + 4
    ensures Listed(bs, n, lineBreak)[TokenOffset(n - 1, |lineBreak|)..] == Hex2(bs[n - 1])
    decreases n
  {
    if n > 1 {
      ListedEnd(bs, n - 1, lineBreak);
      var head := Listed(bs, n - 1, lineBreak) + Between(n - 1, lineBreak);
      assert Listed(bs, n, lineBreak) == head + Hex2(bs[n - 1]);
      assert |head| == TokenOffset(n - 1, |lineBreak|);
    }
  }

  /** Token k keeps its place as the list grows. */
  lemma {:induction false} ListedToken(bs: seq<Byte>, n: nat, k: nat, lineBreak: string)
    requires k < n <= |bs| && |lineBreak| >= 1
    ensures TokenOffset(k, |lineBreak|) + 4 <= |Listed(bs, n, lineBreak)|
    ensures Listed(bs, n, lineBreak)[TokenOffset(k, |lineBreak|)..TokenOffset(k, |lineBreak|) + 4] == Hex2(bs[k])
    decreases n
  {
    if n == k + 1 {
      ListedEnd(bs, n, lineBreak);
    } else {
      ListedToken(bs, n - 1, k, lineBreak);
      ListedGrows(bs, n, TokenOffset(k, |lineBreak|), lineBreak);
    }
  }

  /** Appending the next token leaves the characters before it in place. */
  lemma ListedGrows(bs: seq<Byte>, n: nat, i: nat, lineBreak: string)
    requires 2 <= n <= |bs| && i + 4 <= |Listed(bs, n - 1, lineBreak)|
    ensures i + 4 <= |Listed(bs, n, lineBreak)|
    ensures Listed(bs, n, lineBreak)[i..i + 4] == Listed(bs, n - 1, lineBreak)[i..i + 4]
  {
    var head := Listed(bs, n - 1, lineBreak);
    SliceOfHead(head, Between(n - 1, lineBreak) + Hex2(bs[n - 1]), i, i + 4);
    assert Listed(bs, n, lineBreak) == head + (Between(n - 1, lineBreak) + Hex2(bs[n - 1]));
  }

  lemma SliceOfHead(s: string, t: string, i: nat, j: nat)
    requires i <= j <= |s|
    ensures (s + t)[i..j] == s[i..j]
  {
  }

  /** The byte value read from the four characters at token k's offset. */
  function TokenValue(s: string, k: nat, breakLength: nat): int
    requires breakLength >= 1 && TokenOffset(k, breakLength) + 4 <= |s|
  {
    Hex2Value(s[TokenOffset(k, breakLength)..TokenOffset(k, breakLength) + 4])
  }

  /** The list reads back, token by token at the offsets, as the bytes it was made from. */
  lemma ListedReadsBack(bs: seq<Byte>, n: nat, lineBreak: string)
    requires 1 <= n <= |bs| && |lineBreak| >= 1
    ensures |Listed(bs, n, lineBreak)| == TokenOffset(n - 1, |lineBreak|) + 4
    ensures forall k | 0 <= k < n ::
      TokenOffset(k, |lineBreak|) + 4 <= |Listed(bs, n, lineBreak)| &&
      TokenValue(Listed(bs, n, lineBreak), k, |lineBreak|) == bs[k] as int
  {
    ListedEnd(bs, n, lineBreak);
    forall k | 0 <= k < n
      ensures TokenOffset(k, |lineBreak|) + 4 <= |Listed(bs, n, lineBreak)|
      ensures TokenValue(Listed(bs, n, lineBreak), k, |lineBreak|) == bs[k] as int
    {
      ListedToken(bs, n, k, lineBreak);
      Hex2RoundTrip(bs[k]);
    }
  }
}
