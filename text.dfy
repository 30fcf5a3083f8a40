/** Models of the few Python `str` operations the copier relies on:
    `replace` with a one-character pattern, `strip`, `lower` (ASCII
    letters), `rfind`, `rstrip` with one character, and `"%d" % n`. */
module Text {

  /** `s.replace(c, rep)`: every occurrence of `c` becomes `rep`. */
  function ReplaceChar(s: string, c: char, rep: string): (r: string)
    ensures c !in s ==> r == s
    ensures c !in rep ==> c !in r
    ensures forall x :: x in r ==> (x in s && x != c) || x in rep
    decreases |s|
  {
    if s == [] then []
    else (if s[0] == c then rep else [s[0]]) + ReplaceChar(s[1..], c, rep)
  }

  /** Replacing distributes over concatenation: every occurrence is
      replaced, wherever it stands. */
  lemma {:induction false} ReplaceCharAppend(a: string, b: string, c: char, rep: string)
    ensures ReplaceChar(a + b, c, rep) == ReplaceChar(a, c, rep) + ReplaceChar(b, c, rep)
    decreases |a|
  {
    if a == [] {
      assert a + b == b;
    } else {
      var head := if a[0] == c then rep else [a[0]];
      assert (a + b)[0] == a[0];
      assert (a + b)[1..] == a[1..] + b;
      ReplaceCharAppend(a[1..], b, c, rep);
      calc {
        ReplaceChar(a + b, c, rep);
        head + ReplaceChar(a[1..] + b, c, rep);
        head + (ReplaceChar(a[1..], c, rep) + ReplaceChar(b, c, rep));
        (head + ReplaceChar(a[1..], c, rep)) + ReplaceChar(b, c, rep);
      }
    }
  }

  /** With a one-character replacement the length is kept, every `c`
      becomes `d` and every other character stays where it was. */
  lemma {:induction false} ReplaceCharPointwise(s: string, c: char, d: char)
    ensures |ReplaceChar(s, c, [d])| == |s|
    ensures forall i :: 0 <= i < |s| ==>
      ReplaceChar(s, c, [d])[i] == if s[i] == c then d else s[i]
    decreases |s|
  {
    if s != [] {
      ReplaceCharPointwise(s[1..], c, d);
      var r := ReplaceChar(s, c, [d]);
      assert r == [if s[0] == c then d else s[0]] + ReplaceChar(s[1..], c, [d]);
      forall i | 1 <= i < |s|
        ensures r[i] == if s[i] == c then d else s[i]
      {
        assert r[i] == ReplaceChar(s[1..], c, [d])[i - 1];
      }
    }
  }

  /** Python's `str.isspace`, for the characters `strip()` removes. */
  predicate IsSpace(ch: char) {
    var n := ch as int;
    (9 <= n <= 13) || (28 <= n <= 32) || n == 0x85 || n == 0xA0 || n == 0x1680
    || (0x2000 <= n <= 0x200A) || n == 0x2028 || n == 0x2029 || n == 0x202F
    || n == 0x205F || n == 0x3000
  }

  predicate AllSpace(s: string) {
    forall i :: 0 <= i < |s| ==> IsSpace(s[i])
  }

  /** `s.lstrip()`. */
  function StripStart(s: string): string
    decreases |s|
  {
    if s != [] && IsSpace(s[0]) then StripStart(s[1..]) else s
  }

  /** What `lstrip` drops is whitespace, what it keeps is a suffix of `s`
      and does not start with whitespace. */
  lemma {:induction false} StripStartShape(s: string)
    ensures |StripStart(s)| <= |s| && StripStart(s) == s[|s| - |StripStart(s)|..]
    ensures AllSpace(s[..|s| - |StripStart(s)|])
    ensures StripStart(s) == [] || !IsSpace(StripStart(s)[0])
    decreases |s|
  {
    if s != [] && IsSpace(s[0]) {
      StripStartShape(s[1..]);
      var r := StripStart(s);
      var n := |s| - |r|;
      assert s[1..][|s| - 1 - |r|..] == s[n..];
      forall i | 0 <= i < n ensures IsSpace(s[..n][i]) {
        if i > 0 {
          assert s[..n][i] == s[1..][..n - 1][i - 1];
        }
      }
    }
  }

  /** `s.rstrip()`. */
  function StripEnd(s: string): string
    decreases |s|
  {
    if s != [] && IsSpace(s[|s| - 1]) then StripEnd(s[..|s| - 1]) else s
  }

  /** What `rstrip` drops is whitespace, what it keeps is a prefix of `s`
      and does not end with whitespace. */
  lemma {:induction false} StripEndShape(s: string)
    ensures |StripEnd(s)| <= |s| && StripEnd(s) == s[..|StripEnd(s)|]
    ensures AllSpace(s[|StripEnd(s)|..])
    ensures StripEnd(s) == [] || !IsSpace(StripEnd(s)[|StripEnd(s)| - 1])
    decreases |s|
  {
    if s != [] && IsSpace(s[|s| - 1]) {
      var t := s[..|s| - 1];
      StripEndShape(t);
      var r := StripEnd(s);
      assert t[..|r|] == s[..|r|];
      forall i | |r| <= i < |s| ensures IsSpace(s[i]) {
        if i < |s| - 1 {
          assert t[|r|..][i - |r|] == s[i];
        }
      }
      assert forall i :: 0 <= i < |s[|r|..]| ==> s[|r|..][i] == s[|r| + i];
    }
  }

  /** `s.strip()`. */
  function Strip(s: string): string {
    StripEnd(StripStart(s))
  }

  /** Leading whitespace does not change what `lstrip` keeps. */
  lemma {:induction false} StripStartPadded(w: string, s: string)
    requires AllSpace(w)
    ensures StripStart(w + s) == StripStart(s)
    decreases |w|
  {
    if w == [] {
      assert w + s == s;
    } else {
      assert (w + s)[0] == w[0];
      assert (w + s)[1..] == w[1..] + s;
      assert StripStart(w + s) == StripStart(w[1..] + s);
      StripStartPadded(w[1..], s);
    }
  }

  /** Trailing whitespace does not change what `rstrip` keeps. */
  lemma {:induction false} StripEndPadded(s: string, w: string)
    requires AllSpace(w)
    ensures StripEnd(s + w) == StripEnd(s)
    decreases |w|
  {
    if w == [] {
      assert s + w == s;
    } else {
      var n := |w|;
      assert (s + w)[|s + w| - 1] == w[n - 1];
      assert (s + w)[..|s + w| - 1] == s + w[..n - 1];
      assert StripEnd(s + w) == StripEnd(s + w[..n - 1]);
      StripEndPadded(s, w[..n - 1]);
    }
  }

  /** A string that starts with a non-blank is kept whole by `lstrip`,
      even with whitespace appended. */
  lemma StripStartKeeps(s: string, w: string)
    requires s != [] && !IsSpace(s[0])
    ensures StripStart(s + w) == s + w
  {
    assert (s + w)[0] == s[0];
  }

  /** Surrounding whitespace does not change what `strip()` returns. */
  lemma StripIgnoresPadding(w1: string, s: string, w2: string)
    requires AllSpace(w1) && AllSpace(w2)
    ensures Strip(w1 + s + w2) == Strip(s)
  {
    StripStartShape(s);
    var t := StripStart(s);
    var lead := s[..|s| - |t|];
    assert s == lead + t;
    assert w1 + s + w2 == (w1 + lead) + (t + w2);
    assert AllSpace(w1 + lead) by {
      forall i | 0 <= i < |w1 + lead| ensures IsSpace((w1 + lead)[i]) {
        if i < |w1| { assert (w1 + lead)[i] == w1[i]; }
        else { assert (w1 + lead)[i] == lead[i - |w1|]; }
      }
    }
    StripStartPadded(w1 + lead, t + w2);
    if t == [] {
      assert t + w2 == w2 + [];
      StripStartPadded(w2, []);
    } else {
      StripStartKeeps(t, w2);
      StripEndPadded(t, w2);
    }
  }

  /** `strip()` returns exactly the part between leading and trailing
      whitespace. */
  lemma StripExact(w1: string, t: string, w2: string)
    requires AllSpace(w1) && AllSpace(w2)
    requires t == [] || (!IsSpace(t[0]) && !IsSpace(t[|t| - 1]))
    ensures Strip(w1 + t + w2) == t
  {
    StripIgnoresPadding(w1, t, w2);
    if t != [] {
      StripStartKeeps(t, []);
      assert t + [] == t;
    }
  }

  /** ASCII case folding of one character, as `str.lower` does for it. */
  function LowerChar(ch: char): char {
    if 'A' <= ch <= 'Z' then (ch as int + 32) as char else ch
  }

  /** `s.lower()` for the ASCII letters; other characters are kept. */
  function Lower(s: string): (r: string)
    ensures |r| == |s|
    ensures forall i :: 0 <= i < |s| ==> r[i] == LowerChar(s[i])
    decreases |s|
  {
    if s == [] then [] else [LowerChar(s[0])] + Lower(s[1..])
  }

  /** `s.rfind(c)`: the index of the last `c`, or -1 when there is none. */
  function RFind(s: string, c: char): (i: int)
    ensures -1 <= i < |s|
    ensures 0 <= i ==> s[i] == c
    decreases |s|
  {
    if s == [] then -1
    else if s[|s| - 1] == c then |s| - 1
    else RFind(s[..|s| - 1], c)
  }

  /** No `c` stands after the position `rfind` reports. */
  lemma {:induction false} RFindIsLast(s: string, c: char)
    ensures forall j :: RFind(s, c) < j < |s| ==> s[j] != c
    decreases |s|
  {
    if s != [] && s[|s| - 1] != c {
      RFindIsLast(s[..|s| - 1], c);
    }
  }

  /** Characters after the last `c` do not move it. */
  lemma {:induction false} RFindAppend(a: string, b: string, c: char)
    requires c !in b
    ensures RFind(a + b, c) == RFind(a, c)
    decreases |b|
  {
    if b == [] {
      assert a + b == a;
    } else {
      var n := |b|;
      assert (a + b)[|a + b| - 1] == b[n - 1];
      assert (a + b)[..|a + b| - 1] == a + b[..n - 1];
      RFindAppend(a, b[..n - 1], c);
    }
  }

  /** Every character of `s` is `c`. */
  predicate AllChar(s: string, c: char) {
    forall i :: 0 <= i < |s| ==> s[i] == c
  }

  /** `s.rstrip(c)`: a prefix of `s`. */
  function RStrip(s: string, c: char): (r: string)
    ensures |r| <= |s| && r == s[..|r|]
    decreases |s|
  {
    if s != [] && s[|s| - 1] == c then RStrip(s[..|s| - 1], c) else s
  }

  /** What `rstrip` drops is a run of `c`, and what it keeps does not end
      with `c`. */
  lemma {:induction false} RStripDrops(s: string, c: char)
    ensures AllChar(s[|RStrip(s, c)|..], c)
    ensures RStrip(s, c) == [] || RStrip(s, c)[|RStrip(s, c)| - 1] != c
    decreases |s|
  {
    if s != [] && s[|s| - 1] == c {
      var t := s[..|s| - 1];
      RStripDrops(t, c);
      var r := RStrip(s, c);
      assert r == RStrip(t, c);
      forall j | |r| <= j < |s| ensures s[j] == c {
        if j < |t| {
          assert s[j] == t[j];
          assert t[|r|..][j - |r|] == t[j];
        }
      }
    }
  }

  function DigitChar(d: nat): char
    requires d < 10
  {
    ('0' as int + d) as char
  }

  function DigitValue(ch: char): int {
    ch as int - '0' as int
  }

  predicate IsDigit(ch: char) {
    '0' <= ch <= '9'
  }

  /** `"%d" % n` for a natural number: its decimal digits, most
      significant first, without leading zeros. */
  function Decimal(n: nat): (r: string)
    ensures r != []
    ensures forall i :: 0 <= i < |r| ==> IsDigit(r[i])
    ensures |r| > 1 ==> r[0] != '0'
    decreases n
  {
    if n < 10 then [DigitChar(n)] else Decimal(n / 10) + [DigitChar(n % 10)]
  }

  /** The number a string of decimal digits denotes. */
  function DecimalValue(s: string): int
    decreases |s|
  {
    if s == [] then 0 else 10 * DecimalValue(s[..|s| - 1]) + DigitValue(s[|s| - 1])
  }

  /** Reading the digits back gives the number that was formatted. */
  lemma {:induction false} DecimalRoundTrip(n: nat)
    ensures DecimalValue(Decimal(n)) == n
    decreases n
  {
    if n >= 10 {
      DecimalRoundTrip(n / 10);
      var s := Decimal(n);
      assert s[..|s| - 1] == Decimal(n / 10);
    }
  }
}
