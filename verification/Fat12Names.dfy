/** 8.3 names as the driver parses them (src/fs/fat12.c) and as the image
    builder makes them (tools/make_fat12.py). */
module Fat12Names {
  import opened Bytes

  const SPACE: byte := 0x20
  const DOT: byte := 0x2E

  function Upper(c: byte): byte {
    if 0x61 <= c <= 0x7A then c - 32 else c
  }

  function UpperAll(s: seq<byte>): (r: seq<byte>)
    ensures |r| == |s|
    ensures forall k :: 0 <= k < |s| ==> r[k] == Upper(s[k])
  {
    seq(|s|, k requires 0 <= k < |s| => Upper(s[k]))
  }

  /** The first `n` bytes, padded with spaces to exactly `n`. */
  function Field(s: seq<byte>, n: nat): (r: seq<byte>)
    ensures |r| == n
    ensures forall k :: 0 <= k < n ==> r[k] == if k < |s| then s[k] else SPACE
  {
    seq(n, k => if 0 <= k < |s| then s[k] else SPACE)
  }

  /** Where the first dot is, or the length. */
  function DotAt(s: seq<byte>): (d: nat)
    ensures d <= |s| && (d < |s| ==> s[d] == DOT)
    ensures forall k :: 0 <= k < d ==> s[k] != DOT
  {
    if s == [] || s[0] == DOT then 0 else
      var d := 1 + DotAt(s[1..]);
      assert forall k :: 0 < k < d ==> s[k] == s[1..][k - 1];
      d
  }

  /** Where parse_83 stops reading the base: at the first dot or after eight. */
  function BaseEnd(s: seq<byte>): (stop: nat)
    ensures stop <= |s|
  {
    if DotAt(s) <= 8 then DotAt(s) else 8
  }

  /** Only a dot right where the base stopped starts an extension. */
  function ParsedExt(s: seq<byte>): seq<byte> {
    if BaseEnd(s) < |s| && s[BaseEnd(s)] == DOT then UpperAll(s[BaseEnd(s) + 1..]) else []
  }

  /** parse_83. */
  function Parse83(s: seq<byte>): (r: seq<byte>)
    ensures |r| == 11
  {
    Field(UpperAll(s[..BaseEnd(s)]), 8) + Field(ParsedExt(s), 3)
  }

  /** The name byte by byte, where the base of the input is its first `d` characters:
      small letters become capitals, spaces fill the base to 8 and the extension to 3. */
  lemma ParsedBytes(s: seq<byte>, d: nat, k: nat)
    requires d <= |s| && d <= 8 && (forall j :: 0 <= j < d ==> s[j] != 0x2E)
    requires d == 8 || d == |s| || s[d] == 0x2E
    ensures k < 8 ==>
              Parse83(s)[k] ==
              if k >= d then 0x20 else if 0x61 <= s[k] <= 0x7A then s[k] - 0x20 else s[k]
    ensures k < 3 ==>
              Parse83(s)[8 + k] ==
              if d == |s| || s[d] != 0x2E || d + 1 + k >= |s| then 0x20
              else if 0x61 <= s[d + 1 + k] <= 0x7A then s[d + 1 + k] - 0x20 else s[d + 1 + k]
  {
    assert d == BaseEnd(s) by {
      if DotAt(s) < d { assert false; }
    }
    if d < |s| { assert d + 1 + k < |s| ==> s[d + 1..][k] == s[d + 1 + k]; }
  }

  function BuilderExt(s: seq<byte>): seq<byte> {
    if DotAt(s) < |s| then UpperAll(s[DotAt(s) + 1..]) else []
  }

  /** to_83: the base is cut to eight characters, the extension kept. */
  function To83(s: seq<byte>): (r: seq<byte>)
    ensures |r| == 11
  {
    Field(UpperAll(s[..DotAt(s)]), 8) + Field(BuilderExt(s), 3)
  }

  /** Nothing but spaces in the three characters that are kept. */
  predicate BlankExt(e: seq<byte>) {
    forall k :: 0 <= k < |e| && k < 3 ==> e[k] == SPACE
  }

  lemma BlankField(e: seq<byte>)
    ensures Field(e, 3) == Field([], 3) <==> BlankExt(e)
  {
    if Field(e, 3) == Field([], 3) {
      forall k | 0 <= k < |e| && k < 3 ensures e[k] == SPACE { assert Field(e, 3)[k] == e[k]; }
    }
    if BlankExt(e) {
      assert forall k :: 0 <= k < 3 ==> Field(e, 3)[k] == Field([], 3)[k];
    }
  }

  lemma BasesAgree(s: seq<byte>)
    ensures Field(UpperAll(s[..BaseEnd(s)]), 8) == Field(UpperAll(s[..DotAt(s)]), 8)
  {
    var a, b := UpperAll(s[..BaseEnd(s)]), UpperAll(s[..DotAt(s)]);
    assert forall k :: 0 <= k < |a| ==> a[k] == b[k];
  }

  lemma SameHead(a: seq<byte>, x: seq<byte>, y: seq<byte>)
    ensures a + x == a + y <==> x == y
  {
    assert (a + x)[|a|..] == x && (a + y)[|a|..] == y;
  }

  /** The builder's and the driver's name of one file agree exactly when the base
      has at most eight characters or the extension is blank anyway. */
  lemma NamesAgree(s: seq<byte>)
    ensures To83(s) == Parse83(s) <==> DotAt(s) <= 8 || BlankExt(BuilderExt(s))
  {
    hide UpperAll, Field, BlankExt;
    BasesAgree(s);
    SameHead(Field(UpperAll(s[..DotAt(s)]), 8), Field(BuilderExt(s), 3), Field(ParsedExt(s), 3));
    if DotAt(s) > 8 {
      assert ParsedExt(s) == [];
      BlankField(BuilderExt(s));
    }
  }

  /** Copies characters to `field`, in upper case, up to a dot when `dots` says so,
      to the end of the input, or until the field is full. */
  method Fill(input: seq<byte>, from: nat, field: array<byte>, dots: bool) returns (i: nat)
    requires from <= |input|
    modifies field
    ensures from <= i <= |input| && i - from <= field.Length
    ensures field[..] == Field(UpperAll(input[from..i]), field.Length)
    ensures i == |input| || i - from == field.Length || (dots && input[i] == DOT)
    ensures dots ==> forall k :: from <= k < i ==> input[k] != DOT
  {
    for j := 0 to field.Length
      invariant forall k :: 0 <= k < j ==> field[k] == SPACE
    {
      field[j] := SPACE;
    }
    i := from;
    while i < |input| && !(dots && input[i] == DOT) && i - from < field.Length
      invariant from <= i <= |input| && i - from <= field.Length
      invariant forall k :: 0 <= k < field.Length ==> field[k] == if k < i - from then Upper(input[from + k]) else SPACE
      invariant dots ==> forall k :: from <= k < i ==> input[k] != DOT
    {
      field[i - from] := Upper(input[i]);
      i := i + 1;
    }
  }

  /** parse_83 as written, over the characters before the terminating NUL. */
  method ParseName(input: seq<byte>) returns (name: array<byte>, ext: array<byte>)
    ensures fresh(name) && fresh(ext) && name.Length == 8 && ext.Length == 3
    ensures name[..] + ext[..] == Parse83(input)
  {
    name := new byte[8];
    ext := new byte[3];
    var i := Fill(input, 0, name, true);
    assert i == BaseEnd(input) && input[0..i] == input[..i];
    if i < |input| && input[i] == DOT {
      var e := Fill(input, i + 1, ext, false);
      CutField(input[i + 1..], e - i - 1);
      assert input[i + 1..][..e - i - 1] == input[i + 1..e];
    } else {
      var e := Fill([], 0, ext, false);
      assert [][0..0] == ParsedExt(input);
    }
  }

  /** Only three characters of an extension matter. */
  lemma CutField(s: seq<byte>, n: nat)
    requires n <= |s| && (n == |s| || n == 3)
    ensures Field(UpperAll(s[..n]), 3) == Field(UpperAll(s), 3)
  {
  }

  /** No parsed name starts with the end mark. */
  lemma ParsedNonzero(s: seq<byte>)
    requires 0 !in s
    ensures Parse83(s)[0] != 0
  {
  }
}
