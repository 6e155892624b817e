/**
 * Console input handling shared by the command-line programs: trimming of the
 * typed line, the quit command, copying into the fixed 512-byte path buffer,
 * the prompt loop, `endsWith`, and the Rust program's normalisation.
 */
module ConsoleInput {
  import opened Wrappers

  /** Characters stripped from both ends of a typed path: " \t\n\r\"'". */
  predicate IsTrimChar(c: char)
  {
    c == ' ' || c == '\t' || c == '\n' || c == '\r' || c == '"' || c == '\''
  }

  /** Every character of `s` satisfies `p`. */
  predicate All(s: string, p: char -> bool)
  {
    forall i :: 0 <= i < |s| ==> p(s[i])
  }

  // ---------------------------------------------------------------------------
  // Reference definition of stripping: drop matching characters from one end.

  /** `s` without its longest prefix of characters satisfying `p`. */
  function DropWhile(s: string, p: char -> bool): (r: string)
    ensures |r| <= |s| && r == s[|s| - |r|..]
    ensures All(s[..|s| - |r|], p)
    ensures r != [] ==> !p(r[0])
  {
    if s == [] || !p(s[0]) then s else DropWhile(s[1..], p)
  }

  /** `s` without its longest suffix of characters satisfying `p`. */
  function DropWhileEnd(s: string, p: char -> bool): (r: string)
    ensures |r| <= |s| && r == s[..|r|]
    ensures All(s[|r|..], p)
    ensures r != [] ==> !p(r[|r| - 1])
  {
    if s == [] || !p(s[|s| - 1]) then s else DropWhileEnd(s[..|s| - 1], p)
  }

  // ---------------------------------------------------------------------------
  // The C++ trimming as written: two `erase` calls driven by `find_*_not_of`.

  /** `find_first_not_of(" \t\n\r\"'")`: `None` stands for `npos`. */
  function FindFirstNotOf(s: string): (r: Option<nat>)
    ensures r.Some? ==> r.value < |s| && !IsTrimChar(s[r.value]) && All(s[..r.value], IsTrimChar)
    ensures r.None? ==> All(s, IsTrimChar)
  {
    if s == [] then None
    else if !IsTrimChar(s[0]) then Some(0)
    else match FindFirstNotOf(s[1..])
      case None => None
      case Some(i) => Some(i + 1)
  }

  /** `find_last_not_of(" \t\n\r\"'")`: `None` stands for `npos`. */
  function FindLastNotOf(s: string): (r: Option<nat>)
    ensures r.Some? ==> r.value < |s| && !IsTrimChar(s[r.value]) && All(s[r.value + 1..], IsTrimChar)
    ensures r.None? ==> All(s, IsTrimChar)
  {
    if s == [] then None
    else if !IsTrimChar(s[|s| - 1]) then Some(|s| - 1)
    else FindLastNotOf(s[..|s| - 1])
  }

  /**
   * `input.erase(0, input.find_first_not_of(...))` then
   * `input.erase(input.find_last_not_of(...) + 1)`. `erase(0, npos)` removes
   * everything, and `npos + 1` wraps round to 0 in `size_t`, so a line made
   * only of trim characters becomes empty.
   */
  function Trim(s: string): (r: string)
    ensures |r| <= |s|
    ensures r == [] || (!IsTrimChar(r[0]) && !IsTrimChar(r[|r| - 1]))
    ensures r == [] <==> All(s, IsTrimChar)
  {
    var lead := match FindFirstNotOf(s) case None => [] case Some(i) => s[i..];
    var end := match FindLastNotOf(lead) case None => 0 case Some(j) => j + 1;
    lead[..end]
  }

  /**
   * The erase/find implementation strips exactly the trim characters at both
   * ends: it equals dropping them from the front and then from the back.
   */
  lemma TrimIsStrip(s: string)
    ensures Trim(s) == DropWhileEnd(DropWhile(s, IsTrimChar), IsTrimChar)
  {
    var lead := DropWhile(s, IsTrimChar);
    DropWhileFirst(s);
    assert lead == match FindFirstNotOf(s) case None => [] case Some(i) => s[i..];
    DropWhileEndLast(lead);
  }

  /** `DropWhile` cuts exactly at the first character that is not a trim character. */
  lemma {:induction false} DropWhileFirst(s: string)
    ensures DropWhile(s, IsTrimChar) == match FindFirstNotOf(s) case None => [] case Some(i) => s[i..]
  {
    if s != [] && IsTrimChar(s[0]) {
      DropWhileFirst(s[1..]);
      match FindFirstNotOf(s[1..]) {
        case None =>
        case Some(i) => assert s[1..][i..] == s[i + 1..];
      }
    }
  }

  /** `DropWhileEnd` cuts exactly after the last character that is not a trim character. */
  lemma {:induction false} DropWhileEndLast(s: string)
    ensures DropWhileEnd(s, IsTrimChar) == s[..match FindLastNotOf(s) case None => 0 case Some(j) => j + 1]
  {
    if s != [] && IsTrimChar(s[|s| - 1]) {
      DropWhileEndLast(s[..|s| - 1]);
      match FindLastNotOf(s[..|s| - 1]) {
        case None =>
        case Some(j) => assert s[..|s| - 1][..j + 1] == s[..j + 1];
      }
    }
  }

  /** Number of trim characters at the start of `s`. */
  function LeadingTrimCount(s: string): (n: nat)
    ensures n <= |s|
  {
    |s| - |DropWhile(s, IsTrimChar)|
  }

  /**
   * Trimming keeps one contiguous piece of the line, interior untouched: the
   * result is `s[i..i + |r|]`, with only trim characters before and after it.
   */
  lemma TrimKeepsInterior(s: string)
    ensures LeadingTrimCount(s) + |Trim(s)| <= |s|
    ensures Trim(s) == s[LeadingTrimCount(s)..LeadingTrimCount(s) + |Trim(s)|]
    ensures forall k :: 0 <= k < LeadingTrimCount(s) ==> IsTrimChar(s[k])
    ensures forall k :: LeadingTrimCount(s) + |Trim(s)| <= k < |s| ==> IsTrimChar(s[k])
  {
    TrimPosition(s);
    TrimLeading(s);
    TrimTrailing(s);
  }

  /** The trimmed line starts after the leading trim characters. */
  lemma TrimPosition(s: string)
    ensures LeadingTrimCount(s) + |Trim(s)| <= |s|
    ensures Trim(s) == s[LeadingTrimCount(s)..LeadingTrimCount(s) + |Trim(s)|]
  {
    TrimIsStrip(s);
    StripPosition(s, IsTrimChar);
  }

  /** Only trim characters precede the trimmed line. */
  lemma TrimLeading(s: string)
    ensures forall k :: 0 <= k < LeadingTrimCount(s) ==> IsTrimChar(s[k])
  {
    var lead := DropWhile(s, IsTrimChar);
    forall k | 0 <= k < LeadingTrimCount(s) ensures IsTrimChar(s[k]) {
      assert s[..|s| - |lead|][k] == s[k];
    }
  }

  /** Only trim characters follow the trimmed line. */
  lemma TrimTrailing(s: string)
    ensures forall k :: LeadingTrimCount(s) + |Trim(s)| <= k < |s| ==> IsTrimChar(s[k])
  {
    var lead := DropWhile(s, IsTrimChar);
    var r := DropWhileEnd(lead, IsTrimChar);
    var i := |s| - |lead| + |r|;
    assert LeadingTrimCount(s) + |Trim(s)| == i by {
      TrimIsStrip(s);
    }
    assert All(s[i..], IsTrimChar) by {
      StripTailMatches(s, IsTrimChar);
    }
    AllFrom(s, i, IsTrimChar);
  }

  /** Every character from position `i` on satisfies `p` when the suffix from `i` does. */
  lemma AllFrom(s: string, i: nat, p: char -> bool)
    requires i <= |s| && All(s[i..], p)
    ensures forall k :: i <= k < |s| ==> p(s[k])
  {
    forall k | i <= k < |s| ensures p(s[k]) {
      assert s[i..][k - i] == s[k];
    }
  }

  /** Stripping both ends leaves an infix with only stripped characters around it. */
  lemma StripIsInfix(s: string, p: char -> bool)
    ensures var lead := DropWhile(s, p);
            var r := DropWhileEnd(lead, p);
            var i := |s| - |lead|;
            && i + |r| <= |s| && r == s[i..i + |r|]
            && All(s[..i], p) && All(s[i + |r|..], p)
  {
    StripPosition(s, p);
    StripTailMatches(s, p);
  }

  /** Where the doubly stripped piece sits in the original string. */
  lemma StripPosition(s: string, p: char -> bool)
    ensures var lead := DropWhile(s, p);
            var r := DropWhileEnd(lead, p);
            var i := |s| - |lead|;
            i + |r| <= |s| && r == s[i..i + |r|]
  {
  }

  /** Everything after the doubly stripped piece matches `p`. */
  lemma StripTailMatches(s: string, p: char -> bool)
    ensures var lead := DropWhile(s, p);
            var r := DropWhileEnd(lead, p);
            All(s[|s| - |lead| + |r|..], p)
  {
    var lead := DropWhile(s, p);
    var r := DropWhileEnd(lead, p);
    assert s[|s| - |lead| + |r|..] == lead[|r|..];
  }

  /** Trimming twice is trimming once. */
  lemma TrimIdempotent(s: string)
    ensures Trim(Trim(s)) == Trim(s)
  {
    var r := Trim(s);
    TrimIsStrip(r);
    if r != [] {
      assert DropWhile(r, IsTrimChar) == r;
      assert DropWhileEnd(r, IsTrimChar) == r;
    }
  }

  /** `input == "q" || input == "Q"`: the quit command of the C++ programs. */
  predicate IsQuit(s: string)
  {
    s == "q" || s == "Q"
  }

  /** Rust's `eq_ignore_ascii_case`: same length and equal after ASCII lower-casing. */
  predicate EqIgnoreAsciiCase(a: string, b: string)
  {
    |a| == |b| && forall i :: 0 <= i < |a| ==> AsciiLowerChar(a[i]) == AsciiLowerChar(b[i])
  }

  /** ASCII lower-casing of one character. */
  function AsciiLowerChar(c: char): (r: char)
    ensures ('A' <= c <= 'Z') ==> r as int == c as int + 32
    ensures !('A' <= c <= 'Z') ==> r == c
  {
    if 'A' <= c <= 'Z' then (c as int + 32) as char else c
  }

  /** The Rust quit test `input.eq_ignore_ascii_case("q")` accepts exactly "q" and "Q". */
  lemma RustQuitMatchesCpp(s: string)
    ensures EqIgnoreAsciiCase(s, "q") <==> IsQuit(s)
  {
    if EqIgnoreAsciiCase(s, "q") {
      assert AsciiLowerChar(s[0]) == 'q';
      assert s == [s[0]];
    }
  }

  // ---------------------------------------------------------------------------
  // The 512-byte path buffer.

  /** Size of `pszImageFile`. */
  const PathBufferSize: nat := 512

  /** The longest path the buffer holds before its terminating NUL. */
  const MaxPathLength: nat := 511

  /** The C string seen through `c_str()` or a `char*`: everything before the first NUL. */
  function CString(s: string): (r: string)
    ensures |r| <= |s| && r == s[..|r|]
    ensures forall i :: 0 <= i < |r| ==> r[i] != '\0'
    ensures |r| < |s| ==> s[|r|] == '\0'
  {
    if s == [] || s[0] == '\0' then [] else [s[0]] + CString(s[1..])
  }

  /** A string without an embedded NUL is its own C string. */
  lemma CStringNoNul(s: string)
    requires forall i :: 0 <= i < |s| ==> s[i] != '\0'
    ensures CString(s) == s
  {
  }

  /**
   * The command-line program's copy: `strcpy_s` of the whole input when it is
   * shorter than 512 characters, else of its first 511. Returns the C string
   * the buffer then holds. The program counts bytes; a character here stands
   * for one byte, which is exact for ASCII input.
   */
  function StoredPath(t: string): (r: string)
    ensures |r| <= MaxPathLength
    ensures |r| <= |t| && r == t[..|r|]
    ensures (forall i :: 0 <= i < |t| ==> t[i] != '\0') ==>
              r == if |t| < PathBufferSize then t else t[..MaxPathLength]
  {
    CString(if |t| < PathBufferSize then t else t[..MaxPathLength])
  }

  /** `n` NUL characters. */
  function Nuls(n: nat): (r: string)
    ensures |r| == n && forall i :: 0 <= i < n ==> r[i] == '\0'
  {
    if n == 0 then [] else ['\0'] + Nuls(n - 1)
  }

  /**
   * `strncpy(dest, src, n)`: the `n` bytes written: the source's characters up
   * to its first NUL (at most `n`), then NUL padding up to `n`.
   */
  function StrNCpy(src: string, n: nat): (r: string)
    ensures |r| == n
    ensures forall k :: 0 <= k < n ==> r[k] == if k < |CString(src)| then src[k] else '\0'
    decreases n
  {
    if n == 0 then []
    else if src == [] || src[0] == '\0' then Nuls(n)
    else [src[0]] + StrNCpy(src[1..], n - 1)
  }

  /**
   * The OpenCV and 10.x programs' copy: `strncpy(pImagePath, input.c_str(), 511)`
   * then `pImagePath[511] = '\0'`. All 512 bytes are written.
   */
  function PathBuffer(t: string): (r: string)
    ensures |r| == PathBufferSize
    ensures r[MaxPathLength] == '\0'
  {
    StrNCpy(t, MaxPathLength) + ['\0']
  }

  /**
   * Both copy disciplines leave the same C string in the buffer: the input's
   * first min(len, 511) characters (cut at an embedded NUL).
   */
  lemma PathBufferMatchesStoredPath(t: string)
    ensures CString(PathBuffer(t)) == StoredPath(t)
    ensures |CString(PathBuffer(t))| <= MaxPathLength
  {
    var b := PathBuffer(t);
    var c := CString(t);
    var u := if |t| < PathBufferSize then t else t[..MaxPathLength];
    var n := if |c| < MaxPathLength then |c| else MaxPathLength;
    CStringPrefixStep(t, |u|);
    CStringOfPadded(b, c, n);
  }

  /** C string of `t[..k]` is the C string of `t` cut to `k`. */
  lemma {:induction false} CStringPrefixStep(t: string, k: nat)
    requires k <= |t|
    ensures CString(t[..k]) == CString(t)[..if |CString(t)| < k then |CString(t)| else k]
    decreases k
  {
    if k > 0 && t[0] != '\0' {
      CStringPrefixStep(t[1..], k - 1);
      assert t[..k][1..] == t[1..][..k - 1];
    }
  }

  /** A buffer holding `c[..n]` then a NUL reads back as `c[..n]`. */
  lemma CStringOfPadded(b: string, c: string, n: nat)
    requires n <= |c| && n < |b|
    requires forall k :: 0 <= k < n ==> b[k] == c[k]
    requires forall k :: 0 <= k < n ==> c[k] != '\0'
    requires b[n] == '\0'
    ensures CString(b) == c[..n]
  {
    CStringAt(b, n);
  }

  /** A string whose first NUL is at `n` has the C string `b[..n]`. */
  lemma {:induction false} CStringAt(b: string, n: nat)
    requires n < |b| && b[n] == '\0'
    requires forall k :: 0 <= k < n ==> b[k] != '\0'
    ensures CString(b) == b[..n]
    decreases n
  {
    if n > 0 {
      CStringAt(b[1..], n - 1);
    }
  }

  // ---------------------------------------------------------------------------
  // The prompt loop of `GetImagePath`.

  /** How `GetImagePath` ended. */
  datatype PromptResult =
    | Exit                  // returned true: the user typed q or Q
    | Accepted(path: string) // returned false: the buffer holds an existing path
    | InputExhausted         // the model ran out of input lines (the source prompts forever)

  /** A typed line that neither quits nor names an existing file: the prompt asks again. */
  predicate Rejected(line: string, pathExists: string -> bool)
  {
    !IsQuit(Trim(line)) && !pathExists(StoredPath(Trim(line)))
  }

  /**
   * `GetImagePath`: read lines until one trims to q/Q (exit, buffer untouched by
   * that line) or one whose stored path passes the existence check. `pathExists`
   * is the file-system oracle; `buffer` the C string the buffer held before.
   * Returns the outcome, the buffer afterwards, and how many lines were read.
   */
  function GetImagePath(lines: seq<string>, pathExists: string -> bool, buffer: string): (r: (PromptResult, string, nat))
    ensures r.2 <= |lines|
  {
    PromptFrom(Verdicts(lines, pathExists), 0, buffer)
  }

  /** The verdict of every line. */
  function Verdicts(lines: seq<string>, pathExists: string -> bool): (v: seq<LineVerdict>)
    ensures |v| == |lines| && forall j :: 0 <= j < |lines| ==> v[j] == ReadLine(lines[j], pathExists)
  {
    seq(|lines|, j requires 0 <= j < |lines| => ReadLine(lines[j], pathExists))
  }

  /**
   * Every line before the last one read was rejected; the loop exits on a
   * q/Q line, which leaves the buffer as the line before it left it (as it
   * was, when the quit line is the first one), and accepts the stored path of
   * the last line read only when it exists, leaving that path in the buffer.
   */
  lemma GetImagePathMeaning(lines: seq<string>, pathExists: string -> bool, buffer: string)
    ensures var r := GetImagePath(lines, pathExists, buffer);
      && (forall j :: 0 <= j < r.2 - 1 ==> Rejected(lines[j], pathExists))
      && (r.0 == Exit ==> r.2 >= 1 && IsQuit(Trim(lines[r.2 - 1])))
      && (r.0.Accepted? ==>
            && r.2 >= 1 && !IsQuit(Trim(lines[r.2 - 1]))
            && r.0.path == StoredPath(Trim(lines[r.2 - 1]))
            && pathExists(r.0.path) && r.1 == r.0.path)
      && (r.0 == InputExhausted ==> r.2 == |lines| && (r.2 == 0 || Rejected(lines[r.2 - 1], pathExists)))
      && (r.0 == Exit && r.2 == 1 ==> r.1 == buffer)
      && (r.0 == Exit && r.2 > 1 ==> r.1 == StoredPath(Trim(lines[r.2 - 2])))
      && (r.0 == InputExhausted ==> r.1 == if r.2 == 0 then buffer else StoredPath(Trim(lines[r.2 - 1])))
  {
    var v := Verdicts(lines, pathExists);
    var r := PromptFrom(v, 0, buffer);
    forall j | 0 <= j < r.2 - 1 ensures Rejected(lines[j], pathExists) {
      assert v[j].Retry?;
    }
    if r.2 >= 1 {
      var last := ReadLine(lines[r.2 - 1], pathExists);
      assert v[r.2 - 1] == last;
    }
    if r.2 >= 2 {
      assert v[r.2 - 2] == ReadLine(lines[r.2 - 2], pathExists);
    }
  }

  /** The prompt loop over the verdicts of the lines, from line `from` on; the count in the result is absolute. */
  function PromptFrom(verdicts: seq<LineVerdict>, from: nat, buffer: string): (r: (PromptResult, string, nat))
    requires from <= |verdicts|
    ensures from <= r.2 <= |verdicts|
    ensures forall j :: from <= j < r.2 - 1 ==> verdicts[j].Retry?
    ensures r.0 == Exit ==> r.2 > from && verdicts[r.2 - 1].Quit?
    ensures r.0.Accepted? ==> r.2 > from && verdicts[r.2 - 1] == Found(r.0.path) && r.1 == r.0.path
    ensures r.0 == InputExhausted ==> r.2 == |verdicts| && (r.2 == from || verdicts[r.2 - 1].Retry?)
    ensures r.0 == Exit && r.2 == from + 1 ==> r.1 == buffer
    ensures r.0 == Exit && r.2 > from + 1 ==> r.1 == verdicts[r.2 - 2].stored
    ensures r.0 == InputExhausted ==> r.1 == if r.2 == from then buffer else verdicts[r.2 - 1].stored
    decreases |verdicts| - from
  {
    if from == |verdicts| then (InputExhausted, buffer, from)
    else
      match verdicts[from]
      case Quit => (Exit, buffer, from + 1)
      case Found(stored) => (Accepted(stored), stored, from + 1)
      case Retry(stored) => PromptFrom(verdicts, from + 1, stored)
  }

  /** What one typed line does: quit, an existing stored path, or a stored path to retry after. */
  datatype LineVerdict = Quit | Found(stored: string) | Retry(stored: string)

  /** One iteration of the prompt loop: trim, test for q/Q, copy into the buffer, test existence. */
  function ReadLine(line: string, pathExists: string -> bool): (v: LineVerdict)
    ensures v.Quit? <==> IsQuit(Trim(line))
    ensures v.Retry? <==> Rejected(line, pathExists)
    ensures !v.Quit? ==> v.stored == StoredPath(Trim(line))
    ensures v.Found? ==> pathExists(v.stored)
  {
    var input := Trim(line);
    if IsQuit(input) then Quit
    else
      var stored := StoredPath(input);
      if pathExists(stored) then Found(stored) else Retry(stored)
  }

  // ---------------------------------------------------------------------------
  // endsWith

  /** `endsWith(str, suffix)`: false when the suffix is longer, else compare the tail. */
  function EndsWith(str: string, suffix: string): (r: bool)
    ensures r <==> exists head :: str == head + suffix
  {
    if |suffix| > |str| then false
    else
      var tail := str[|str| - |suffix|..];
      assert str == str[..|str| - |suffix|] + tail;
      tail == suffix
  }

  /** The empty suffix always matches. */
  lemma EndsWithEmpty(str: string)
    ensures EndsWith(str, "")
  {
    assert str == str + "";
  }

  // ---------------------------------------------------------------------------
  // The Rust program's normalisation.

  /** Unicode `White_Space`, the set Rust's `str::trim` strips. */
  predicate IsUnicodeWhitespace(c: char)
  {
    || ('\t' <= c <= '\r') || c == ' ' || c == '\U{85}' || c == '\U{A0}' || c == '\U{1680}'
    || ('\U{2000}' <= c <= '\U{200A}') || c == '\U{2028}' || c == '\U{2029}' || c == '\U{202F}'
    || c == '\U{205F}' || c == '\U{3000}'
  }

  /**
   * `input.trim().trim_start_matches(set).trim_end_matches(set)` with the set
   * [' ', '\t', '\n', '\r', '"', '\''].
   */
  function RustNormalize(s: string): (r: string)
    ensures |r| <= |s|
    ensures r == [] || (!IsTrimChar(r[0]) && !IsTrimChar(r[|r| - 1]))
    ensures All(s, IsTrimChar) ==> r == []
  {
    var trimmed := DropWhileEnd(DropWhile(s, IsUnicodeWhitespace), IsUnicodeWhitespace);
    StripKeepsAll(s, IsUnicodeWhitespace, IsTrimChar);
    StripEmptyWhenAll(trimmed, IsTrimChar);
    DropWhileEnd(DropWhile(trimmed, IsTrimChar), IsTrimChar)
  }

  /** Stripping any characters from both ends keeps a property every character had. */
  lemma StripKeepsAll(s: string, p: char -> bool, q: char -> bool)
    ensures All(s, q) ==> All(DropWhileEnd(DropWhile(s, p), p), q)
  {
    var lead := DropWhile(s, p);
    var t := DropWhileEnd(lead, p);
    if All(s, q) {
      AllSlice(s, |s| - |lead|, |s|, q);
      AllSlice(lead, 0, |t|, q);
    }
  }

  /** A slice of a string whose characters all satisfy `q` satisfies `q` too. */
  lemma AllSlice(s: string, i: nat, j: nat, q: char -> bool)
    requires i <= j <= |s| && All(s, q)
    ensures All(s[i..j], q)
  {
    forall k | 0 <= k < j - i ensures q(s[i..j][k]) {
      assert s[i..j][k] == s[i + k];
    }
  }

  /** Stripping a string whose characters all match leaves nothing. */
  lemma StripEmptyWhenAll(s: string, p: char -> bool)
    ensures All(s, p) ==> DropWhileEnd(DropWhile(s, p), p) == []
  {
    if All(s, p) {
    }
  }

  /** Dropping from a string whose leading part all matches skips that part. */
  lemma {:induction false} DropWhileSkipsPrefix(pre: string, y: string, p: char -> bool)
    requires All(pre, p)
    ensures DropWhile(pre + y, p) == DropWhile(y, p)
    decreases |pre|
  {
    if pre != [] {
      TailOfConcat(pre, y);
      assert p(pre[0]);
      AllSlice(pre, 1, |pre|, p);
      DropWhileSkipsPrefix(pre[1..], y, p);
    } else {
      assert pre + y == y;
    }
  }

  /** Dropping the first character of `a + b`, for a non-empty `a`, drops it from `a`. */
  lemma TailOfConcat(a: string, b: string)
    requires a != []
    ensures (a + b)[0] == a[0] && (a + b)[1..] == a[1..] + b
  {
  }

  /** Dropping from the end of a string whose trailing part all matches skips that part. */
  lemma {:induction false} DropWhileEndSkipsSuffix(y: string, post: string, p: char -> bool)
    requires All(post, p)
    ensures DropWhileEnd(y + post, p) == DropWhileEnd(y, p)
    decreases |post|
  {
    if post != [] {
      assert (y + post)[|y + post| - 1] == post[|post| - 1] && p(post[|post| - 1]);
      assert DropWhileEnd(y + post, p) == DropWhileEnd((y + post)[..|y + post| - 1], p);
      assert (y + post)[..|y + post| - 1] == y + post[..|post| - 1];
      assert All(post[..|post| - 1], p) by {
        forall i | 0 <= i < |post| - 1 ensures p(post[i]) { }
      }
      DropWhileEndSkipsSuffix(y, post[..|post| - 1], p);
    } else {
      assert y + post == y;
    }
  }

  /** Appending matching characters does not change the doubly stripped result. */
  lemma {:induction false} StripIgnoresTrailing(x: string, post: string, p: char -> bool)
    requires All(post, p)
    ensures DropWhileEnd(DropWhile(x + post, p), p) == DropWhileEnd(DropWhile(x, p), p)
    decreases |x|
  {
    if x == [] {
      assert x + post == post;
      DropWhileSkipsPrefix(post, [], p);
      assert post + [] == post;
    } else if p(x[0]) {
      assert (x + post)[1..] == x[1..] + post;
      StripIgnoresTrailing(x[1..], post, p);
    } else {
      DropWhileEndSkipsSuffix(x, post, p);
    }
  }

  /** Stripping with `p` and then with a wider `q` is stripping with `q`, when `p` implies `q` on `s`. */
  lemma StripThenWider(s: string, p: char -> bool, q: char -> bool)
    requires forall i :: 0 <= i < |s| ==> p(s[i]) ==> q(s[i])
    ensures DropWhileEnd(DropWhile(DropWhileEnd(DropWhile(s, p), p), q), q) == DropWhileEnd(DropWhile(s, q), q)
  {
    var lead := DropWhile(s, p);
    var trimmed := DropWhileEnd(lead, p);
    var pre := s[..|s| - |lead|];
    var post := lead[|trimmed|..];
    SplitAt(s, |s| - |lead|);
    SplitAt(lead, |trimmed|);
    PrefixAlsoMatches(s, p, q);
    SuffixAlsoMatches(s, p, q);
    DropWhileSkipsPrefix(pre, lead, q);
    assert DropWhile(s, q) == DropWhile(lead, q);
    StripIgnoresTrailing(trimmed, post, q);
    assert DropWhileEnd(DropWhile(trimmed + post, q), q) == DropWhileEnd(DropWhile(trimmed, q), q);
  }

  /** A string is its prefix followed by the rest. */
  lemma SplitAt(s: string, k: nat)
    requires k <= |s|
    ensures s == s[..k] + s[k..]
  {
  }

  /** The prefix `DropWhile` removes with `p` also matches `q`. */
  lemma PrefixAlsoMatches(s: string, p: char -> bool, q: char -> bool)
    requires forall i :: 0 <= i < |s| ==> p(s[i]) ==> q(s[i])
    ensures All(s[..|s| - |DropWhile(s, p)|], q)
  {
    var cut := |s| - |DropWhile(s, p)|;
    assert s[..cut] == s[0..cut];
    WiderSlice(s, 0, cut, p, q);
  }

  /** A suffix of a suffix is a suffix. */
  lemma SliceOfSlice(s: string, a: nat, b: nat)
    requires a + b <= |s|
    ensures s[a..][b..] == s[a + b..|s|]
  {
  }

  /** A slice whose characters all satisfy `p` satisfies `q` when `p` implies `q` on the whole string. */
  lemma WiderSlice(s: string, i: nat, j: nat, p: char -> bool, q: char -> bool)
    requires i <= j <= |s|
    requires forall k :: 0 <= k < |s| ==> p(s[k]) ==> q(s[k])
    requires All(s[i..j], p)
    ensures All(s[i..j], q)
  {
    forall k | 0 <= k < j - i ensures q(s[i..j][k]) {
      assert s[i..j][k] == s[i + k];
    }
  }

  /** The suffix `DropWhileEnd` then removes with `p` also matches `q`. */
  lemma SuffixAlsoMatches(s: string, p: char -> bool, q: char -> bool)
    requires forall i :: 0 <= i < |s| ==> p(s[i]) ==> q(s[i])
    ensures var lead := DropWhile(s, p); All(lead[|DropWhileEnd(lead, p)|..], q)
  {
    var lead := DropWhile(s, p);
    var cut := |DropWhileEnd(lead, p)|;
    var d := |s| - |lead|;
    SliceOfSlice(s, d, cut);
    WiderSlice(s, d + cut, |s|, p, q);
  }

  /**
   * When every whitespace character of the line is one of the C++ trim
   * characters (no vertical tab, form feed or non-ASCII space), the Rust
   * normalisation and the C++ trimming give the same result.
   */
  lemma RustNormalizeMatchesTrim(s: string)
    requires forall i :: 0 <= i < |s| ==> IsUnicodeWhitespace(s[i]) ==> IsTrimChar(s[i])
    ensures RustNormalize(s) == Trim(s)
  {
    StripThenWider(s, IsUnicodeWhitespace, IsTrimChar);
    TrimIsStrip(s);
  }
}
