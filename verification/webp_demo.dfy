/**
 * The WebP demo's byte-to-hex helper and its command-line plan.
 */
module WebpDemo {
  import opened Wrappers

  /** `HEXCHARS`: the sixteen upper-case digits. */
  const HexChars: string := "0123456789ABCDEF"

  /** `(b & 0xF0) >> 4`: the high nibble. */
  function HighNibble(b: bv8): (n: nat)
    ensures n < 16 && n == b as int / 16
  {
    ((b & 0xF0) >> 4) as int
  }

  /** `(b & 0x0F) >> 0`: the low nibble. */
  function LowNibble(b: bv8): (n: nat)
    ensures n < 16 && n == b as int % 16
  {
    ((b & 0x0F) >> 0) as int
  }

  /** The three characters written for one byte: high digit, low digit, space. */
  function ByteHex(b: bv8): (r: string)
    ensures |r| == 3 && r[2] == ' '
    ensures r[0] in HexChars && r[1] in HexChars
  {
    [HexChars[HighNibble(b)], HexChars[LowNibble(b)], ' ']
  }

  /** The text for a run of bytes (reference definition). */
  function HexEncode(bytes: seq<bv8>): (r: string)
    ensures |r| == 3 * |bytes|
  {
    if bytes == [] then [] else HexEncode(bytes[..|bytes| - 1]) + ByteHex(bytes[|bytes| - 1])
  }

  /**
   * `ToHexString(pSrc, iLen, pDest)`: for each of the first `iLen` bytes,
   * `snprintf(ptr, 4, "%c%c ", ...)` writes two digits, a space and a
   * terminating NUL, and the pointer moves on by 3; so the text ends in a NUL
   * at `3 * iLen` and nothing past it is touched. With `iLen <= 0` nothing is
   * written. The destination is returned as its new contents.
   */
  method ToHexString(src: seq<bv8>, iLen: int, dest: seq<char>) returns (out: seq<char>)
    requires iLen <= |src|
    requires iLen > 0 ==> |dest| >= 3 * iLen + 1
    ensures |out| == |dest|
    ensures iLen <= 0 ==> out == dest
    ensures iLen > 0 ==>
      && out[..3 * iLen] == HexEncode(src[..iLen])
      && out[3 * iLen] == '\0'
      && out[3 * iLen + 1..] == dest[3 * iLen + 1..]
  {
    out := dest;
    if iLen <= 0 {
      return;
    }
    var i := 0;
    while i < iLen
      invariant 0 <= i <= iLen
      invariant |out| == |dest|
      invariant out[..3 * i] == HexEncode(src[..i])
      invariant i > 0 ==> out[3 * i] == '\0'
      invariant out[3 * i + 1..] == dest[3 * i + 1..]
    {
      var ptr := 3 * i;
      WriteByte(out, ptr, src[i]);
      SuffixOfEqual(out, dest, ptr + 1, ptr + 4);
      HexEncodeStep(src, i);
      out := out[..ptr] + (ByteHex(src[i]) + ['\0']) + out[ptr + 4..];
      i := i + 1;
    }
  }

  /** One `snprintf` of a byte at `p`: three characters and a NUL, nothing else touched. */
  lemma WriteByte(out: seq<char>, p: nat, b: bv8)
    requires p + 4 <= |out|
    ensures var o := out[..p] + (ByteHex(b) + ['\0']) + out[p + 4..];
      && |o| == |out|
      && o[..p + 3] == out[..p] + ByteHex(b)
      && o[p + 3] == '\0'
      && o[p + 4..] == out[p + 4..]
  {
    var o := out[..p] + (ByteHex(b) + ['\0']) + out[p + 4..];
    assert o[..p + 3] == out[..p] + ByteHex(b);
    assert o[p + 4..] == out[p + 4..];
  }

  /** Equal suffixes from `i` stay equal from any later `j`. */
  lemma SuffixOfEqual(a: seq<char>, b: seq<char>, i: nat, j: nat)
    requires i <= j <= |a| && |a| == |b| && a[i..] == b[i..]
    ensures a[j..] == b[j..]
  {
    assert a[j..] == a[i..][j - i..];
    assert b[j..] == b[i..][j - i..];
  }

  /** The text of the first `i + 1` bytes extends that of the first `i`. */
  lemma HexEncodeStep(src: seq<bv8>, i: nat)
    requires i < |src|
    ensures HexEncode(src[..i + 1]) == HexEncode(src[..i]) + ByteHex(src[i])
  {
    assert src[..i + 1][..i] == src[..i];
  }

  /** Position of a digit in `HexChars`. */
  function DigitValue(c: char): Option<nat>
  {
    if '0' <= c <= '9' then Some(c as int - '0' as int)
    else if 'A' <= c <= 'F' then Some(c as int - 'A' as int + 10)
    else None
  }

  lemma DigitValueOfHexChar(n: nat)
    requires n < 16
    ensures DigitValue(HexChars[n]) == Some(n)
  {
  }

  /** Reading the text back: a digit pair and a space per byte. */
  function HexDecode(s: string): Option<seq<bv8>>
    decreases |s|
  {
    if |s| < 3 then (if s == [] then Some([]) else None)
    else
      var init := HexDecode(s[..|s| - 3]);
      var hi := DigitValue(s[|s| - 3]);
      var lo := DigitValue(s[|s| - 2]);
      if init.None? || hi.None? || lo.None? || s[|s| - 1] != ' ' then None
      else Some(init.value + [(hi.value * 16 + lo.value) as bv8])
  }

  /** The two digits of a byte determine it. */
  lemma NibblesRebuild(b: bv8)
    ensures (HighNibble(b) * 16 + LowNibble(b)) as bv8 == b
  {
  }

  /** Decoding text followed by one byte's three characters decodes that byte last. */
  lemma HexDecodeStep(t: string, b: bv8)
    ensures HexDecode(t).Some? ==> HexDecode(t + ByteHex(b)) == Some(HexDecode(t).value + [b])
  {
    var s := t + ByteHex(b);
    assert s[..|s| - 3] == t;
    DigitValueOfHexChar(HighNibble(b));
    DigitValueOfHexChar(LowNibble(b));
    NibblesRebuild(b);
  }

  /** Decoding the hex text gives back the bytes: the encoding is injective. */
  lemma {:induction false} HexRoundTrip(bytes: seq<bv8>)
    ensures HexDecode(HexEncode(bytes)) == Some(bytes)
    decreases |bytes|
  {
    if bytes != [] {
      var init := bytes[..|bytes| - 1];
      var b := bytes[|bytes| - 1];
      assert HexEncode(bytes) == HexEncode(init) + ByteHex(b);
      HexRoundTrip(init);
      HexDecodeStep(HexEncode(init), b);
      assert init + [b] == bytes;
    }
  }

  /** Every character written is an upper-case hex digit or a space. */
  lemma {:induction false} HexAlphabet(bytes: seq<bv8>)
    ensures forall k :: 0 <= k < |HexEncode(bytes)| ==> HexEncode(bytes)[k] in HexChars + " "
    decreases |bytes|
  {
    if bytes != [] {
      var n := |bytes|;
      HexAlphabet(bytes[..n - 1]);
      var prev := HexEncode(bytes[..n - 1]);
      var last := ByteHex(bytes[n - 1]);
      forall k | 0 <= k < |prev + last| ensures (prev + last)[k] in HexChars + " " {
        if k < |prev| {
          assert (prev + last)[k] == prev[k];
        } else {
          assert (prev + last)[k] == last[k - |prev|];
        }
      }
    }
  }

  // ---------------------------------------------------------------------------
  // Command line

  /** What `main` does with its arguments. */
  datatype ArgPlan =
    | Usage                                          // print usage, return 0
    | Run(readLicense: bool, readTemplate: bool)     // decode `argv[1]`

  /**
   * Fewer than two arguments: usage. Otherwise `switch (argc)` falls through
   * from case 4 (template file) into case 3 (license file); any other count
   * reads neither.
   */
  function PlanFor(argc: int): (p: ArgPlan)
    ensures p == Usage <==> argc < 2
    ensures p.Run? ==> (p.readLicense <==> argc == 3 || argc == 4)
    ensures p.Run? ==> (p.readTemplate <==> argc == 4)
    ensures p.Run? && p.readTemplate ==> p.readLicense
  {
    if argc < 2 then Usage
    else
      var config := argc == 4;
      var license := argc == 4 || argc == 3;
      Run(license, config)
  }

  /** The `switch (argc)` as written: each case label and the `argv` index it reads. */
  const SwitchCases: seq<(int, nat)> := [(4, 3), (3, 2)]

  /** Where control enters the switch: the first matching label, or past the end. */
  function SwitchEntry(argc: int, k: nat): (e: nat)
    requires k <= |SwitchCases|
    ensures k <= e <= |SwitchCases|
    ensures e < |SwitchCases| ==> SwitchCases[e].0 == argc
    ensures forall j :: k <= j < e ==> SwitchCases[j].0 != argc
    decreases |SwitchCases| - k
  {
    if k == |SwitchCases| || SwitchCases[k].0 == argc then k else SwitchEntry(argc, k + 1)
  }

  /** The `argv` indices read: every case from the entry on, since no case breaks. */
  function FallThroughReads(argc: int): (idx: seq<nat>)
  {
    var e := SwitchEntry(argc, 0);
    seq(|SwitchCases| - e, j requires 0 <= j < |SwitchCases| - e => SwitchCases[e + j].1)
  }

  /**
   * The plan agrees with executing the switch: the template (`argv[3]`) and
   * the license (`argv[2]`) are read exactly when the fall-through reaches
   * their case.
   */
  lemma PlanMatchesFallThrough(argc: int)
    requires argc >= 2
    ensures PlanFor(argc).readTemplate <==> 3 in FallThroughReads(argc)
    ensures PlanFor(argc).readLicense <==> 2 in FallThroughReads(argc)
  {
    var e := SwitchEntry(argc, 0);
    var r := FallThroughReads(argc);
    if argc == 4 {
      assert e == 0;
      assert r == [3, 2];
    } else if argc == 3 {
      assert e == 1;
      assert r == [2];
    } else {
      assert e == 2;
      assert r == [];
    }
  }
}
