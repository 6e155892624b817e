/** String helpers shared by the console, MRZ and GUI serialisers. */
module Text {

  /** The digit characters in value order. */
  const Digits: string := "0123456789"

  /** Decimal rendering of a natural number (`std::to_string`, `QString::arg`, `{}`). */
  function NatToString(n: nat): (r: string)
    ensures |r| >= 1
    ensures forall i :: 0 <= i < |r| ==> '0' <= r[i] <= '9'
    ensures n >= 10 ==> |r| >= 2
    decreases n
  {
    if n < 10 then [Digits[n]] else NatToString(n / 10) + [Digits[n % 10]]
  }

  /** Value of a decimal digit string; the inverse of `NatToString`. */
  function ParseNat(s: string): nat
    requires forall i :: 0 <= i < |s| ==> '0' <= s[i] <= '9'
  {
    if s == [] then 0 else 10 * ParseNat(s[..|s| - 1]) + (s[|s| - 1] as int - '0' as int)
  }

  /** Decimal rendering is injective: parsing the digits gives the number back. */
  lemma {:induction false} ParseNatToString(n: nat)
    ensures ParseNat(NatToString(n)) == n
    decreases n
  {
    if n >= 10 {
      var s := NatToString(n);
      assert s[..|s| - 1] == NatToString(n / 10);
      ParseNatToString(n / 10);
    }
  }

  /** Decimal rendering of a signed integer, with a leading '-' when negative. */
  function IntToString(i: int): (r: string)
    ensures |r| >= 1
    ensures (r[0] == '-') <==> i < 0
    ensures forall k :: 0 <= k < |r| ==> r[k] != '\n'
  {
    if i < 0 then "-" + NatToString(-i) else NatToString(i)
  }

  /** True when the text holds no line break, so it stays on one line of output. */
  predicate NoNewline(s: string)
  {
    forall i :: 0 <= i < |s| ==> s[i] != '\n'
  }

  /** A concatenation holds a line break exactly when one of its parts does. */
  lemma NoNewlineConcat(a: string, b: string)
    ensures NoNewline(a + b) <==> NoNewline(a) && NoNewline(b)
  {
    if NoNewline(a + b) {
      forall i | 0 <= i < |a| ensures a[i] != '\n' {
        assert (a + b)[i] == a[i];
      }
      forall i | 0 <= i < |b| ensures b[i] != '\n' {
        assert (a + b)[|a| + i] == b[i];
      }
    }
    if NoNewline(a) && NoNewline(b) {
      forall i | 0 <= i < |a + b| ensures (a + b)[i] != '\n' {
        if i >= |a| {
          assert (a + b)[i] == b[i - |a|];
        }
      }
    }
  }

  /** Every line of a concatenation of line lists is free of line breaks exactly when every line of both parts is. */
  lemma AllNoNewlineAppend(a: seq<string>, b: seq<string>)
    ensures (forall k :: 0 <= k < |a + b| ==> NoNewline((a + b)[k]))
        <==> (forall k :: 0 <= k < |a| ==> NoNewline(a[k])) && (forall k :: 0 <= k < |b| ==> NoNewline(b[k]))
  {
    if forall k :: 0 <= k < |a + b| ==> NoNewline((a + b)[k]) {
      forall k | 0 <= k < |a| ensures NoNewline(a[k]) {
        assert (a + b)[k] == a[k];
      }
      forall k | 0 <= k < |b| ensures NoNewline(b[k]) {
        assert (a + b)[|a| + k] == b[k];
      }
    }
    if (forall k :: 0 <= k < |a| ==> NoNewline(a[k])) && (forall k :: 0 <= k < |b| ==> NoNewline(b[k])) {
      forall k | 0 <= k < |a + b| ensures NoNewline((a + b)[k]) {
        if k >= |a| {
          assert (a + b)[k] == b[k - |a|];
        }
      }
    }
  }

  /** `s` begins with `pre`. */
  predicate StartsWith(s: string, pre: string)
  {
    |pre| <= |s| && s[..|pre|] == pre
  }

  /** C `tolower` / Rust `to_ascii_lowercase` on one character: only 'A'..'Z' change. */
  function AsciiLower(c: char): char
  {
    if 'A' <= c <= 'Z' then (c as int + 32) as char else c
  }

  /** Character-wise ASCII lower-casing of a string. */
  function LowerAscii(s: string): (r: string)
    ensures |r| == |s|
    ensures forall i :: 0 <= i < |s| ==> r[i] == AsciiLower(s[i])
  {
    seq(|s|, i requires 0 <= i < |s| => AsciiLower(s[i]))
  }

  /** Each line followed by '\n': the shape of a sequence of `msg += ... + "\n"` steps. */
  function JoinLines(lines: seq<string>): string
  {
    if lines == [] then "" else lines[0] + "\n" + JoinLines(lines[1..])
  }

  /** Position of the first '\n', if any. */
  function IndexOfNewline(s: string): (r: nat)
    ensures r <= |s|
    ensures r < |s| ==> s[r] == '\n'
    ensures forall i :: 0 <= i < r ==> s[i] != '\n'
  {
    if s == [] then 0 else if s[0] == '\n' then 0 else 1 + IndexOfNewline(s[1..])
  }

  /** Splits newline-terminated text into its lines (a final unterminated piece is a line too). */
  function SplitLines(s: string): seq<string>
    decreases |s|
  {
    if s == [] then []
    else
      var i := IndexOfNewline(s);
      if i == |s| then [s] else [s[..i]] + SplitLines(s[i + 1..])
  }

  /** Joining lines that hold no '\n' and splitting the result gives the lines back. */
  lemma {:induction false} SplitJoinLines(lines: seq<string>)
    requires forall k :: 0 <= k < |lines| ==> NoNewline(lines[k])
    ensures SplitLines(JoinLines(lines)) == lines
  {
    if lines != [] {
      var s := JoinLines(lines);
      var a := lines[0];
      assert s == a + "\n" + JoinLines(lines[1..]);
      assert s[|a|] == '\n';
      assert forall i :: 0 <= i < |a| ==> s[i] == a[i];
      assert IndexOfNewline(s) == |a|;
      assert s[..|a|] == a;
      assert s[|a| + 1..] == JoinLines(lines[1..]);
      SplitJoinLines(lines[1..]);
    }
  }

  /** Joining distributes over concatenation of line lists. */
  lemma {:induction false} JoinLinesAppend(a: seq<string>, b: seq<string>)
    ensures JoinLines(a + b) == JoinLines(a) + JoinLines(b)
    decreases |a|
  {
    if a != [] {
      assert (a + b)[1..] == a[1..] + b;
      JoinLinesAppend(a[1..], b);
    } else {
      assert a + b == b;
    }
  }

  /** Number of lines of joined text. */
  lemma JoinLinesCount(lines: seq<string>)
    requires forall k :: 0 <= k < |lines| ==> NoNewline(lines[k])
    ensures |SplitLines(JoinLines(lines))| == |lines|
  {
    SplitJoinLines(lines);
  }
}
