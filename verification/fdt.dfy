/** Device-tree property access as the generator uses it: a node is a map
    from property name to raw bytes, and the helpers of `fdt2.py` read
    NUL-terminated strings and big-endian 32-bit cells out of them. */
module Fdt {
  import opened Wrappers
  import opened Bytes

  /** The properties of one device-tree node, by name. */
  type Props = map<string, seq<byte>>

  /** No byte of `s` is NUL. */
  predicate NoNul(s: seq<byte>)
  {
    forall i :: 0 <= i < |s| ==> s[i] != 0
  }

  /** `property_is_str`: the last byte is NUL and no earlier one is.
      Indexing the last byte of an empty property fails. */
  function IsStr(p: seq<byte>): (r: Result<bool>)
    ensures r.Fail? <==> |p| == 0
  {
    if |p| == 0 then Fail(Index)
    else Ok(p[|p| - 1] == 0 && NoNul(p[..|p| - 1]))
  }

  /** A string property is exactly a NUL-free text followed by one NUL. */
  lemma IsStrIff(p: seq<byte>)
    requires |p| > 0
    ensures IsStr(p) == Ok(true) <==> p == p[..|p| - 1] + [0] && NoNul(p[..|p| - 1])
  {
    if p == p[..|p| - 1] + [0] {
      assert p[|p| - 1] == 0;
    }
  }

  /** Appending a NUL to any NUL-free text gives a string property. */
  lemma TerminatedIsStr(s: seq<byte>)
    requires NoNul(s)
    ensures IsStr(s + [0]) == Ok(true)
  {
    assert (s + [0])[..|s|] == s;
  }

  /** The characters of a byte string, one per byte. */
  function Chars(b: seq<byte>): (r: string)
    ensures |r| == |b|
    ensures forall i :: 0 <= i < |b| ==> r[i] as int == b[i]
  {
    seq(|b|, i requires 0 <= i < |b| => b[i] as char)
  }

  /** libfdt's `Property.as_str`: the text before the terminating NUL; a
      property that is not a string is a ValueError. */
  function AsStr(p: seq<byte>): (r: Result<string>)
    ensures r.Ok? <==> IsStr(p) == Ok(true)
    ensures r.Ok? ==> Chars(p) == r.value + ['\0']
  {
    if IsStr(p) == Ok(true) then
      assert Chars(p) == Chars(p[..|p| - 1]) + ['\0'];
      Ok(Chars(p[..|p| - 1]))
    else Fail(BadValue("string property"))
  }

  /** The four big-endian bytes of each word, in order: the encoding that
      `as_uint32_array` reads back. */
  function Cells(ws: seq<nat>): (r: seq<byte>)
    requires forall i :: 0 <= i < |ws| ==> ws[i] < 0x1_0000_0000
    ensures |r| == 4 * |ws|
  {
    if |ws| == 0 then []
    else
      assert Pow(256, 4) == 0x1_0000_0000;
      BeBytes(ws[0], 4) + Cells(ws[1..])
  }

  /** The words of `p` read four bytes at a time, big-endian. */
  function Words(p: seq<byte>): (r: seq<nat>)
    requires |p| % 4 == 0
    ensures |r| == |p| / 4
    ensures forall i :: 0 <= i < |r| ==> r[i] < 0x1_0000_0000
    decreases |p|
  {
    if |p| == 0 then [] else [Be32At(p, 0)] + Words(p[4..])
  }

  /** Word `i` is the big-endian value of bytes `4i .. 4i+4`. */
  lemma {:induction false} WordsAt(p: seq<byte>, i: nat)
    requires |p| % 4 == 0 && i < |p| / 4
    ensures 4 * i + 4 <= |p| && Words(p)[i] == Be32At(p, 4 * i)
    decreases i
  {
    if i > 0 {
      WordsAt(p[4..], i - 1);
      assert p[4..][4 * (i - 1)..4 * (i - 1) + 4] == p[4 * i..4 * i + 4];
    }
  }

  /** `property_as_uint32_array`: the big-endian words of the property; a
      length that is not a multiple of four is a `struct.error`. */
  function AsUint32Array(p: seq<byte>): (r: Result<seq<nat>>)
    ensures r.Ok? <==> |p| % 4 == 0
    ensures r.Ok? ==> |r.value| == |p| / 4
    ensures r.Ok? ==> forall i :: 0 <= i < |r.value| ==> 4 * i + 4 <= |p| && r.value[i] == Be32At(p, 4 * i)
  {
    if |p| % 4 != 0 then Fail(Truncated)
    else
      forall i | 0 <= i < |p| / 4
        ensures 4 * i + 4 <= |p| && Words(p)[i] == Be32At(p, 4 * i)
      {
        WordsAt(p, i);
      }
      Ok(Words(p))
  }

  /** Reading the words of an encoded word list gives the list back. */
  lemma WordsOfCells(ws: seq<nat>)
    requires forall i :: 0 <= i < |ws| ==> ws[i] < 0x1_0000_0000
    ensures AsUint32Array(Cells(ws)) == Ok(ws)
  {
    WordsCells(ws);
  }

  lemma {:induction false} WordsCells(ws: seq<nat>)
    requires forall i :: 0 <= i < |ws| ==> ws[i] < 0x1_0000_0000
    ensures |Cells(ws)| % 4 == 0 && Words(Cells(ws)) == ws
    decreases |ws|
  {
    if |ws| > 0 {
      assert Pow(256, 4) == 0x1_0000_0000;
      WordsCells(ws[1..]);
      WordsCons(ws[0], Cells(ws[1..]));
      assert ws == [ws[0]] + ws[1..];
    }
  }

  lemma WordsCons(w: nat, t: seq<byte>)
    requires w < 0x1_0000_0000 && |t| % 4 == 0
    ensures Pow(256, 4) == 0x1_0000_0000
    ensures Words(BeBytes(w, 4) + t) == [w] + Words(t)
  {
    assert Pow(256, 4) == 0x1_0000_0000;
    var c := BeBytes(w, 4) + t;
    assert c[4..] == t;
    assert c[0..4] == BeBytes(w, 4);
  }

  /** Encoding the words read from a property gives the property back. */
  lemma {:induction false} CellsOfWords(p: seq<byte>)
    requires |p| % 4 == 0
    ensures Cells(Words(p)) == p
    decreases |p|
  {
    if |p| > 0 {
      CellsOfWords(p[4..]);
      var ws := Words(p);
      assert ws[1..] == Words(p[4..]);
      BeBytesOfValue(p[..4]);
      assert p[0..4] == p[..4];
      assert p == p[..4] + p[4..];
    }
  }

  /** libfdt's `Property.as_uint32`: exactly one big-endian word. */
  function AsUint32(p: seq<byte>): (r: Result<nat>)
    ensures r.Ok? <==> |p| == 4
    ensures r.Ok? ==> r.value < 0x1_0000_0000 && BeBytes(r.value, 4) == p
  {
    if |p| != 4 then Fail(Truncated)
    else
      assert Pow(256, 4) == 0x1_0000_0000;
      BeBytesOfValue(p);
      assert p[0..4] == p;
      Ok(Be32At(p, 0))
  }

  /** `getprop_or_none`: the property's bytes, or nothing when the node
      does not have it. */
  function GetpropOrNone(props: Props, name: string): (r: Option<seq<byte>>)
    ensures r.None? <==> name !in props
    ensures r.Some? ==> r.value == props[name]
  {
    if name in props then Some(props[name]) else None
  }

  /** `getprop_uint32`: the default for a missing property, and for an
      empty one when `ignoreEmpty` is set; otherwise the property's single
      word. */
  function GetpropUint32(props: Props, name: string, default: nat, ignoreEmpty: bool): (r: Result<nat>)
    ensures name !in props ==> r == Ok(default)
    ensures name in props && ignoreEmpty && |props[name]| == 0 ==> r == Ok(default)
    ensures name in props && !(ignoreEmpty && |props[name]| == 0) ==> r == AsUint32(props[name])
  {
    match GetpropOrNone(props, name)
    case None => Ok(default)
    case Some(p) => if ignoreEmpty && |p| == 0 then Ok(default) else AsUint32(p)
  }

  /** A present, non-empty property is never read as the default: it is
      either its own word or an error. */
  lemma GetpropUint32Present(props: Props, name: string, default: nat, ignoreEmpty: bool)
    requires name in props && |props[name]| > 0
    ensures GetpropUint32(props, name, default, ignoreEmpty).Ok? <==> |props[name]| == 4
    ensures GetpropUint32(props, name, default, ignoreEmpty).Ok? ==>
      BeBytes(GetpropUint32(props, name, default, ignoreEmpty).value, 4) == props[name]
  {
  }
}
