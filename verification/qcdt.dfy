/** `tools/unpackqcdt.py`: read the table of a Qualcomm combined
    device-tree image (QCDT) and cut out one blob per entry. */
module Qcdt {
  import opened Wrappers
  import opened Bytes
  import opened Text

  /** Bytes of the `<4sII` header: magic, version, entry count. */
  const HeaderSize: nat := 12

  const QcdtMagic: seq<byte> := [0x51, 0x43, 0x44, 0x54]

  /** One table entry (`DTRecord`); fields a version does not carry keep
      their defaults of 0. */
  datatype Record = Record(platId: nat, variantId: nat, subtypeId: nat, offset: nat, size: nat,
                           socRev: nat, pmic: seq<nat>)

  /** The number of 32-bit words per entry, `ENTRY_FORMATS[version - 1]`:
      version 0 indexes the last format from the end; versions above 3
      index past the tuple. */
  function EntryWords(version: nat): (r: Result<nat>)
    ensures r.Ok? <==> version <= 3
    ensures r.Ok? ==> r.value >= 5
  {
    if version == 1 then Ok(5)
    else if version == 2 then Ok(6)
    else if version == 0 || version == 3 then Ok(10)
    else Fail(Index)
  }

  /** `ENTRY_FORMATS[-1]`: version 0 silently reads entries in the
      version 3 layout. */
  lemma VersionZeroAsThree()
    ensures EntryWords(0) == EntryWords(3) == Ok(10)
  {
  }

  /** `k` little-endian words from `off`. */
  function Words(b: seq<byte>, off: nat, k: nat): (r: seq<nat>)
    requires off + 4 * k <= |b|
    ensures |r| == k
    ensures forall i :: 0 <= i < k ==> r[i] == Le32At(b, off + 4 * i)
  {
    seq(k, i requires 0 <= i < k => Le32At(b, off + 4 * i))
  }

  /** The record of one unpacked entry: ids first, offset and size last,
      the SoC revision from version 2 and the PMIC ids from version 3. */
  function RecordOf(version: nat, e: seq<nat>): (r: Record)
    requires |e| >= 5 && (version >= 3 ==> |e| >= 10)
    ensures r.platId == e[0] && r.variantId == e[1] && r.subtypeId == e[2]
    ensures r.offset == e[|e| - 2] && r.size == e[|e| - 1]
    ensures r.socRev == (if version >= 2 then e[3] else 0)
    ensures r.pmic == (if version >= 3 then e[4..8] else [0, 0, 0, 0])
  {
    Record(e[0], e[1], e[2], e[|e| - 2], e[|e| - 1],
           if version >= 2 then e[3] else 0,
           if version >= 3 then e[4..8] else [0, 0, 0, 0])
  }

  /** `count` entries of `words` words each, unpacked back to back from
      `off` as `struct.unpack` tuples. */
  function Entries(b: seq<byte>, words: nat, off: nat, count: nat): (r: Result<seq<seq<nat>>>)
    ensures r.Ok? ==> |r.value| == count && forall i :: 0 <= i < count ==> |r.value[i]| == words
    ensures r.Ok? <==> count == 0 || off + Span(4 * words, count) <= |b|
    decreases count
  {
    if count == 0 then Ok([])
    else if off + 4 * words > |b| then Fail(Truncated)
    else
      var rest :- Entries(b, words, off + 4 * words, count - 1);
      Ok([Words(b, off, words)] + rest)
  }

  /** Entry `i` holds the words that follow the `i` entries before it. */
  lemma {:induction false} EntriesAt(b: seq<byte>, words: nat, off: nat, count: nat, i: nat)
    requires Entries(b, words, off, count).Ok? && i < count
    ensures off + Span(4 * words, i) + 4 * words <= |b|
    ensures Entries(b, words, off, count).value[i] == Words(b, off + Span(4 * words, i), words)
    decreases count
  {
    if i > 0 {
      EntriesAt(b, words, off + 4 * words, count - 1, i - 1);
    }
  }

  /** The records of unpacked entries, one each. */
  function Records(version: nat, es: seq<seq<nat>>): (rs: seq<Record>)
    requires forall i :: 0 <= i < |es| ==> |es[i]| >= 5 && (version >= 3 ==> |es[i]| >= 10)
    ensures |rs| == |es| && forall i :: 0 <= i < |es| ==> rs[i] == RecordOf(version, es[i])
  {
    seq(|es|, i requires 0 <= i < |es| => RecordOf(version, es[i]))
  }

  /** The table of a QCDT image: the header must be complete and carry the
      magic; the entry format is looked up only for a non-empty table. */
  function Parse(b: seq<byte>): (r: Result<seq<Record>>)
    ensures |b| < HeaderSize ==> r == Fail(Truncated)
    ensures |b| >= HeaderSize && b[..4] != QcdtMagic ==> r.Fail?
    ensures r.Ok? ==> |b| >= HeaderSize && b[..4] == QcdtMagic && |r.value| == Le32At(b, 8)
    ensures |b| >= HeaderSize && b[..4] == QcdtMagic && Le32At(b, 8) == 0 ==> r == Ok([])
  {
    if |b| < HeaderSize then Fail(Truncated)
    else if b[..4] != QcdtMagic then Fail(Rejected("QCDT image"))
    else
      var version := Le32At(b, 4);
      var n := Le32At(b, 8);
      if n == 0 then Ok([])
      else
        var words :- EntryWords(version);
        var es :- Entries(b, words, HeaderSize, n);
        Ok(Records(version, es))
  }

  /** `b[offset:offset + size]`, clamped like a Python slice. */
  function Blob(b: seq<byte>, r: Record): (s: seq<byte>)
    ensures |s| <= r.size
    ensures r.offset + r.size <= |b| ==> s == b[r.offset..r.offset + r.size]
  {
    var lo := if r.offset < |b| then r.offset else |b|;
    var hi := if r.offset + r.size < |b| then r.offset + r.size else |b|;
    b[lo..hi]
  }

  /** `plat_{plat_id:x}-var_{variant_id:x}-sub_{subtype_id:x}.dtb`. */
  function BlobName(r: Record): string
  {
    "plat_" + Digits(r.platId, 16) + "-var_" + Digits(r.variantId, 16) + "-sub_" + Digits(r.subtypeId, 16) + ".dtb"
  }

  /** The id of a blob name reads back from its hex digits. */
  lemma BlobNamePlat(r: Record)
    ensures var name := BlobName(r);
      var d := Digits(r.platId, 16);
      name[..5] == "plat_" && DigitsValue(name[5..5 + |d|], 16) == r.platId && name[5 + |d|] == '-'
  {
    var name := BlobName(r);
    var d := Digits(r.platId, 16);
    assert name[5..5 + |d|] == d;
  }

  // ---------------------------------------------------------------------
  // Writing a table, to state what reading one recovers

  /** Little-endian 32-bit words, back to back. */
  function LeWords(ws: seq<nat>): (r: seq<byte>)
    requires forall i :: 0 <= i < |ws| ==> ws[i] < 0x1_0000_0000
    ensures |r| == 4 * |ws|
  {
    if |ws| == 0 then []
    else
      assert Pow(256, 4) == 0x1_0000_0000;
      LeBytes(ws[0], 4) + LeWords(ws[1..])
  }

  /** Reading back the words written anywhere in a buffer. */
  lemma {:induction false} WordsOfLeWords(pre: seq<byte>, ws: seq<nat>, post: seq<byte>)
    requires forall i :: 0 <= i < |ws| ==> ws[i] < 0x1_0000_0000
    ensures Words(pre + LeWords(ws) + post, |pre|, |ws|) == ws
    decreases |ws|
  {
    if |ws| > 0 {
      assert Pow(256, 4) == 0x1_0000_0000;
      var head := LeBytes(ws[0], 4);
      var tail := LeWords(ws[1..]) + post;
      var b := pre + LeWords(ws) + post;
      assert b == (pre + head) + LeWords(ws[1..]) + post;
      WordsOfLeWords(pre + head, ws[1..], post);
      HeadWord(pre, head, tail);
      assert b == pre + head + tail;
      WordsCons(b, |pre|, |ws|);
      assert ws == [ws[0]] + ws[1..];
    }
  }

  lemma HeadWord(pre: seq<byte>, x: seq<byte>, rest: seq<byte>)
    requires |x| == 4
    ensures Le32At(pre + x + rest, |pre|) == LeValue(x)
  {
    assert (pre + x + rest)[|pre|..|pre| + 4] == x;
  }

  lemma WordsCons(b: seq<byte>, off: nat, k: nat)
    requires k > 0 && off + 4 * k <= |b|
    ensures Words(b, off, k) == [Le32At(b, off)] + Words(b, off + 4, k - 1)
  {
    var r := Words(b, off, k);
    var t := Words(b, off + 4, k - 1);
    assert forall i :: 1 <= i < k ==> r[i] == t[i - 1];
  }

  /** The words a version stores for a record. */
  function EntryOf(version: nat, r: Record): (e: seq<nat>)
    requires Storable(version, r)
    ensures EntryWords(version) == Ok(|e|)
    ensures forall i :: 0 <= i < |e| ==> e[i] < 0x1_0000_0000
  {
    if version == 1 then [r.platId, r.variantId, r.subtypeId, r.offset, r.size]
    else if version == 2 then [r.platId, r.variantId, r.subtypeId, r.socRev, r.offset, r.size]
    else [r.platId, r.variantId, r.subtypeId, r.socRev] + r.pmic + [r.offset, r.size]
  }

  /** A record that a version can carry: every field fits 32 bits and the
      fields the version does not store are at their defaults. */
  predicate Storable(version: nat, r: Record)
  {
    1 <= version <= 3 && |r.pmic| == 4
    && r.platId < 0x1_0000_0000 && r.variantId < 0x1_0000_0000 && r.subtypeId < 0x1_0000_0000
    && r.offset < 0x1_0000_0000 && r.size < 0x1_0000_0000 && r.socRev < 0x1_0000_0000
    && (forall i :: 0 <= i < 4 ==> r.pmic[i] < 0x1_0000_0000)
    && (version < 2 ==> r.socRev == 0)
    && (version < 3 ==> r.pmic == [0, 0, 0, 0])
  }

  function TableWords(version: nat, rs: seq<Record>): (ws: seq<nat>)
    requires forall i :: 0 <= i < |rs| ==> Storable(version, rs[i])
    ensures forall i :: 0 <= i < |ws| ==> ws[i] < 0x1_0000_0000
  {
    if |rs| == 0 then []
    else
      assert Storable(version, rs[0]);
      EntryOf(version, rs[0]) + TableWords(version, rs[1..])
  }

  /** A QCDT image holding `rs`, followed by any blob data. */
  function Build(version: nat, rs: seq<Record>, data: seq<byte>): seq<byte>
    requires 1 <= version <= 3 && |rs| < 0x1_0000_0000
    requires forall i :: 0 <= i < |rs| ==> Storable(version, rs[i])
  {
    QcdtMagic + LeWords([version, |rs|]) + LeWords(TableWords(version, rs)) + data
  }

  /** Reading a written table gives its records back. */
  lemma ParseBuild(version: nat, rs: seq<Record>, data: seq<byte>)
    requires 1 <= version <= 3 && |rs| < 0x1_0000_0000
    requires forall i :: 0 <= i < |rs| ==> Storable(version, rs[i])
    ensures Parse(Build(version, rs, data)) == Ok(rs)
  {
    var pre := QcdtMagic + LeWords([version, |rs|]);
    var b := Build(version, rs, data);
    BuildHeader(version, rs, data);
    if |rs| > 0 {
      var words := EntryWords(version).value;
      var es := Rows(version, rs);
      EntriesBuild(version, words, pre, rs, data);
      assert Entries(b, words, HeaderSize, |rs|) == Ok(es);
      ParseOf(b, version, words, es);
      RecordsOfRows(version, rs);
    }
  }

  /** Reading the entries written for records gives the records back. */
  lemma RecordsOfRows(version: nat, rs: seq<Record>)
    requires forall i :: 0 <= i < |rs| ==> Storable(version, rs[i])
    ensures Records(version, Rows(version, rs)) == rs
  {
    var es := Rows(version, rs);
    forall i | 0 <= i < |rs|
      ensures Records(version, es)[i] == rs[i]
    {
      RecordOfEntry(version, rs[i]);
    }
  }

  /** How `Parse` reads a complete header with a non-empty table. */
  lemma ParseOf(b: seq<byte>, version: nat, words: nat, es: seq<seq<nat>>)
    requires |b| >= HeaderSize && b[..4] == QcdtMagic && Le32At(b, 4) == version && Le32At(b, 8) > 0
    requires EntryWords(version) == Ok(words) && Entries(b, words, HeaderSize, Le32At(b, 8)) == Ok(es)
    ensures Parse(b) == Ok(Records(version, es))
  {
  }

  /** The header of a written image carries the magic, version and count. */
  lemma BuildHeader(version: nat, rs: seq<Record>, data: seq<byte>)
    requires 1 <= version <= 3 && |rs| < 0x1_0000_0000
    requires forall i :: 0 <= i < |rs| ==> Storable(version, rs[i])
    ensures var b := Build(version, rs, data);
      |b| >= HeaderSize && b[..4] == QcdtMagic && Le32At(b, 4) == version && Le32At(b, 8) == |rs|
      && b == (QcdtMagic + LeWords([version, |rs|])) + LeWords(TableWords(version, rs)) + data
      && |QcdtMagic + LeWords([version, |rs|])| == HeaderSize
  {
    var table := LeWords(TableWords(version, rs));
    HeaderFields(version, |rs|, table + data);
    Reassociate(QcdtMagic, LeWords([version, |rs|]), [], table + data);
    assert (QcdtMagic + LeWords([version, |rs|])) + table + data
        == QcdtMagic + LeWords([version, |rs|]) + (table + data);
  }

  /** The twelve header bytes in front of any rest. */
  lemma HeaderFields(version: nat, n: nat, rest: seq<byte>)
    requires version < 0x1_0000_0000 && n < 0x1_0000_0000
    ensures var b := QcdtMagic + LeWords([version, n]) + rest;
      |b| >= HeaderSize && b[..4] == QcdtMagic && Le32At(b, 4) == version && Le32At(b, 8) == n
      && |QcdtMagic + LeWords([version, n])| == HeaderSize
  {
    var b := QcdtMagic + LeWords([version, n]) + rest;
    WordsOfLeWords(QcdtMagic, [version, n], rest);
    var hw := Words(b, 4, 2);
    assert hw[0] == Le32At(b, 4) && hw[1] == Le32At(b, 8);
    assert b[..4] == QcdtMagic;
  }

  /** The entries a version stores for `rs`, one per record. */
  function Rows(version: nat, rs: seq<Record>): (es: seq<seq<nat>>)
    requires forall i :: 0 <= i < |rs| ==> Storable(version, rs[i])
    ensures |es| == |rs| && forall i :: 0 <= i < |rs| ==> es[i] == EntryOf(version, rs[i])
  {
    seq(|rs|, i requires 0 <= i < |rs| => EntryOf(version, rs[i]))
  }

  /** The words of a written table unpack into one entry per record. */
  lemma {:induction false} EntriesBuild(version: nat, words: nat, pre: seq<byte>, rs: seq<Record>, data: seq<byte>)
    requires 1 <= version <= 3 && EntryWords(version) == Ok(words)
    requires forall i :: 0 <= i < |rs| ==> Storable(version, rs[i])
    ensures Entries(pre + LeWords(TableWords(version, rs)) + data, words, |pre|, |rs|) == Ok(Rows(version, rs))
    decreases |rs|
  {
    if |rs| > 0 {
      var e := EntryOf(version, rs[0]);
      var tail := TableWords(version, rs[1..]);
      assert TableWords(version, rs) == e + tail;
      assert words == |e|;
      EntriesBuild(version, words, pre + LeWords(e), rs[1..], data);
      EntriesFront(pre, e, tail, data, words, |rs| - 1, Rows(version, rs[1..]));
      RowsCons(version, rs);
    }
  }

  /** A table whose words are `e` and then `tail` reads as the entry `e`
      followed by what the words of `tail` read as. */
  lemma EntriesFront(pre: seq<byte>, e: seq<nat>, tail: seq<nat>, data: seq<byte>, words: nat, n: nat, rest: seq<seq<nat>>)
    requires words == |e|
    requires forall i :: 0 <= i < |e| ==> e[i] < 0x1_0000_0000
    requires forall i :: 0 <= i < |tail| ==> tail[i] < 0x1_0000_0000
    requires Entries(pre + LeWords(e) + LeWords(tail) + data, words, |pre + LeWords(e)|, n) == Ok(rest)
    ensures Entries(pre + LeWords(e + tail) + data, words, |pre|, n + 1) == Ok([e] + rest)
  {
    var b := pre + LeWords(e + tail) + data;
    EntryLayout(pre, e, tail, data);
    EntriesCons(b, words, |pre|, n + 1, e, rest);
  }

  lemma RowsCons(version: nat, rs: seq<Record>)
    requires forall i :: 0 <= i < |rs| ==> Storable(version, rs[i])
    requires |rs| > 0
    ensures Rows(version, rs) == [EntryOf(version, rs[0])] + Rows(version, rs[1..])
  {
  }

  /** One more entry in front of a readable table. */
  lemma EntriesCons(b: seq<byte>, words: nat, off: nat, count: nat, e: seq<nat>, rest: seq<seq<nat>>)
    requires count > 0 && off + 4 * words <= |b| && Words(b, off, words) == e
    requires Entries(b, words, off + 4 * words, count - 1) == Ok(rest)
    ensures Entries(b, words, off, count) == Ok([e] + rest)
  {
  }

  /** The first entry of written words sits right after what precedes it,
      and the rest of the words follow. */
  lemma EntryLayout(pre: seq<byte>, e: seq<nat>, tail: seq<nat>, data: seq<byte>)
    requires forall i :: 0 <= i < |e| ==> e[i] < 0x1_0000_0000
    requires forall i :: 0 <= i < |tail| ==> tail[i] < 0x1_0000_0000
    ensures var b := pre + LeWords(e + tail) + data;
      |pre| + 4 * |e| <= |b| && Words(b, |pre|, |e|) == e
      && b == (pre + LeWords(e)) + LeWords(tail) + data
      && |pre + LeWords(e)| == |pre| + 4 * |e|
  {
    LeWordsAppend(e, tail);
    Reassociate(pre, LeWords(e), LeWords(tail), data);
    WordsOfLeWords(pre, e, LeWords(tail) + data);
  }

  /** Regrouping of concatenations, kept out of the layout lemmas whose
      solver budget it would otherwise exhaust. */
  lemma Reassociate(a: seq<byte>, x: seq<byte>, y: seq<byte>, z: seq<byte>)
    ensures a + (x + y) + z == (a + x) + y + z && a + (x + y) + z == a + x + (y + z)
  {
  }

  lemma RecordOfEntry(version: nat, r: Record)
    requires Storable(version, r)
    ensures RecordOf(version, EntryOf(version, r)) == r
  {
    var e := EntryOf(version, r);
    if version == 3 {
      assert e[4..8] == r.pmic;
    }
  }

  lemma {:induction false} LeWordsAppend(a: seq<nat>, b: seq<nat>)
    requires forall i :: 0 <= i < |a| ==> a[i] < 0x1_0000_0000
    requires forall i :: 0 <= i < |b| ==> b[i] < 0x1_0000_0000
    ensures LeWords(a + b) == LeWords(a) + LeWords(b)
    decreases |a|
  {
    if |a| > 0 {
      LeWordsAppend(a[1..], b);
      assert (a + b)[1..] == a[1..] + b;
    } else {
      assert a + b == b;
    }
  }

  /** A format version above 3 has no entry layout: a non-empty table of
      such an image cannot be read. */
  lemma UnknownVersionFails(b: seq<byte>)
    requires |b| >= HeaderSize && b[..4] == QcdtMagic
    requires Le32At(b, 4) > 3 && Le32At(b, 8) > 0
    ensures Parse(b) == Fail(Index)
  {
  }
}
