/** Tab-aware line wrapping and argument alignment (wrap.py), used for every
    emitted C call. */
module Wrap {
  import opened Text

  function Tabs(s: string): nat
  {
    if |s| == 0 then 0 else Tabs(s[..|s| - 1]) + (if s[|s| - 1] == '\t' then 1 else 0)
  }

  /** `_width`: the display width of `s`, a tab counting eight columns. */
  function Width(s: string): (r: nat)
    ensures r >= |s|
  {
    |s| + 7 * Tabs(s)
  }

  /** Every tab adds seven columns to the length. */
  lemma WidthCountsTabs(s: string)
    ensures Width(s) == |s| + 7 * multiset(s)['\t']
  {
    TabsCount(s);
  }

  /** `Tabs` counts the tab characters of a string. */
  lemma {:induction false} TabsCount(s: string)
    ensures Tabs(s) == multiset(s)['\t']
    decreases |s|
  {
    if |s| > 0 {
      TabsCount(s[..|s| - 1]);
      assert s == s[..|s| - 1] + [s[|s| - 1]];
    }
  }

  lemma {:induction false} TabsAppend(a: string, b: string)
    ensures Tabs(a + b) == Tabs(a) + Tabs(b)
    decreases |b|
  {
    if |b| > 0 {
      var b' := b[..|b| - 1];
      assert (a + b)[..|a + b| - 1] == a + b';
      TabsAppend(a, b');
    } else {
      assert a + b == a;
    }
  }

  /** Widths add up over concatenation, and a string is never narrower than it is long. */
  lemma WidthAppend(a: string, b: string)
    ensures Width(a + b) == Width(a) + Width(b)
    ensures Width(a) >= |a|
  {
    TabsAppend(a, b);
  }

  lemma {:induction false} TabsRepeat(c: char, n: nat)
    ensures Tabs(Repeat(c, n)) == (if c == '\t' then n else 0)
    decreases n
  {
    if n > 0 {
      TabsRepeat(c, n - 1);
      TabsAppend([c], Repeat(c, n - 1));
      assert [c][..0] == [];
    }
  }

  /** The continuation indent for a prefix `align` columns wide: as many
      tabs as fit, then spaces.  Its width is exactly `align`. */
  function Indent(align: nat): (r: string)
    ensures Width(r) == align
  {
    var t := Repeat('\t', align / 8);
    var s := Repeat(' ', align % 8);
    TabsRepeat('\t', align / 8);
    TabsRepeat(' ', align % 8);
    TabsAppend(t, s);
    t + s
  }

  // ---------------------------------------------------------------------
  // simple()

  /** What `simple` puts before `item` when `s` has been produced so far:
      a line break when the whole of `s` plus the item and a space would
      exceed `wrap`, otherwise a space, or nothing at the very start. */
  function SimpleGap(s: string, item: string, wrap: int): string
  {
    if Width(s) + |item| + 1 > wrap then "\n" else if |s| > 0 then " " else ""
  }

  /** `simple(items, wrap)`: the items in order, each after at most one
      separating character, the last one at the very end. */
  function Simple(items: seq<string>, wrap: int): (r: string)
    ensures |Concat(items)| <= |r| <= |Concat(items)| + |items|
    ensures |items| > 0 ==> var last := items[|items| - 1];
      |last| <= |r| && r[|r| - |last|..] == last
    decreases |items|
  {
    if |items| == 0 then ""
    else
      var p := Simple(items[..|items| - 1], wrap);
      var last := items[|items| - 1];
      p + SimpleGap(p, last, wrap) + last
  }

  /** The text for a shorter list of items is a prefix of the text for a longer one. */
  lemma {:induction false} SimplePrefix(items: seq<string>, k: nat, wrap: int)
    requires k <= |items|
    ensures StartsWith(Simple(items, wrap), Simple(items[..k], wrap))
    decreases |items|
  {
    if k < |items| {
      var p := items[..|items| - 1];
      SimplePrefix(p, k, wrap);
      assert p[..k] == items[..k];
    } else {
      assert items[..k] == items;
    }
  }

  /** Because `simple` measures everything produced so far, not just the
      current line, once it breaks a line it puts every later item on a
      line of its own. */
  lemma SimpleBreaksPersist(items: seq<string>, k: nat, j: nat, wrap: int)
    requires k < j < |items|
    requires SimpleGap(Simple(items[..k], wrap), items[k], wrap) == "\n"
    ensures SimpleGap(Simple(items[..j], wrap), items[j], wrap) == "\n"
  {
    var sk1 := Simple(items[..k + 1], wrap);
    var sj := Simple(items[..j], wrap);
    SimpleBreakWidens(items, k, wrap);
    assert StartsWith(sj, sk1) by {
      SimplePrefix(items[..j], k + 1, wrap);
      assert items[..j][..k + 1] == items[..k + 1];
    }
    WidthPrefix(sk1, sj);
  }

  /** After a line break the text produced so far is wider than `wrap`. */
  lemma SimpleBreakWidens(items: seq<string>, k: nat, wrap: int)
    requires k < |items|
    requires SimpleGap(Simple(items[..k], wrap), items[k], wrap) == "\n"
    ensures Width(Simple(items[..k + 1], wrap)) > wrap
  {
    var sk := Simple(items[..k], wrap);
    assert Simple(items[..k + 1], wrap) == sk + "\n" + items[k] by {
      assert items[..k + 1][..k] == items[..k];
      assert items[..k + 1][k] == items[k];
    }
    WidthAppend(sk, "\n");
    WidthAppend(sk + "\n", items[k]);
  }

  /** A string is at least as wide as any of its prefixes. */
  lemma WidthPrefix(a: string, b: string)
    requires StartsWith(b, a)
    ensures Width(b) >= Width(a)
  {
    var rest := b[|a|..];
    assert b == a + rest;
    WidthAppend(a, rest);
  }

  lemma JoinSnoc(xs: seq<string>, x: string, sep: string)
    requires |xs| >= 1
    ensures Join(xs + [x], sep) == Join(xs, sep) + sep + x
    decreases |xs|
  {
    if |xs| > 1 {
      assert (xs + [x])[1..] == xs[1..] + [x];
      JoinSnoc(xs[1..], x, sep);
    }
  }

  /** Non-empty items whose space-separated rendering stays strictly
      narrower than `wrap` come out on one line. */
  lemma {:induction false} SimpleFits(items: seq<string>, wrap: int)
    requires forall k :: 0 <= k < |items| ==> |items[k]| > 0
    requires Width(Join(items, " ")) < wrap
    ensures Simple(items, wrap) == Join(items, " ")
    decreases |items|
  {
    if |items| > 1 {
      var p := items[..|items| - 1];
      var last := items[|items| - 1];
      assert items == p + [last];
      JoinSnoc(p, last, " ");
      WidthAppend(Join(p, " "), " ");
      WidthAppend(Join(p, " ") + " ", last);
      SimpleFits(p, wrap);
      assert |Join(p, " ")| >= |p[0]| by { JoinHead(p, " "); }
    } else if |items| == 1 {
      assert items[..0] == [];
      WidthAppend(items[0], "");
    }
  }

  lemma JoinHead(xs: seq<string>, sep: string)
    requires |xs| >= 1
    ensures StartsWith(Join(xs, sep), xs[0])
  {
  }

  // ---------------------------------------------------------------------
  // join()

  /** One wrapping job of `join` once the flat rendering did not fit:
      the first-line `prefix`, the continuation `indent`, the items with
      their separators attached (`pieces`), the forced break index and the
      columns left after the prefix (`room`). */
  datatype Layout = Layout(prefix: string, indent: string, pieces: seq<string>, force: int, room: int)
  {
    /** The current line just before piece `i` is placed. */
    function LineBefore(i: nat): string
      requires i <= |pieces|
      decreases i, 0
    {
      if i == 0 then ""
      else
        var prev := LineBefore(i - 1);
        if BreakAt(i - 1) then pieces[i - 1]
        else if prev != "" then prev + " " + pieces[i - 1]
        else pieces[i - 1]
    }

    /** A new line starts at piece `i` exactly when the current line is not
        empty and either `i` is the forced index or the line's width plus
        the piece's length would exceed `room` (the joining space is not
        counted). */
    predicate BreakAt(i: nat)
      requires i < |pieces|
      decreases i, 1
    {
      var line := LineBefore(i);
      line != "" && (force == i || Width(line) + |pieces[i]| > room)
    }

    /** What separates piece `i` from what precedes it. */
    function Gap(i: nat): string
      requires i < |pieces|
    {
      if BreakAt(i) then "\n" + indent else if LineBefore(i) != "" then " " else ""
    }

    /** The rendering of the first `i` pieces. */
    function Render(i: nat): string
      requires i <= |pieces|
    {
      if i == 0 then prefix else Render(i - 1) + Gap(i - 1) + pieces[i - 1]
    }
  }

  /** The items of `join` with their separators: `sep` after every item but
      the last, `end` after the last. */
  function Pieces(items: seq<string>, sep: string, end: string): (r: seq<string>)
    ensures |r| == |items|
    ensures forall i :: 0 <= i < |items| ==> r[i] == items[i] + (if i == |items| - 1 then end else sep)
  {
    seq(|items|, i requires 0 <= i < |items| => items[i] + (if i == |items| - 1 then end else sep))
  }

  /** The loop of `join` as written: `out` is the emitted text, `lead` the
      prefix of the current line and `line` its content. */
  function JoinLoop(w: Layout, i: nat, out: string, lead: string, line: string): string
    requires i <= |w.pieces|
    decreases |w.pieces| - i
  {
    if i == |w.pieces| then out + lead + line
    else
      var piece := w.pieces[i];
      if line != "" && (w.force == i || Width(line) + |piece| > w.room) then
        JoinLoop(w, i + 1, out + lead + line + "\n", w.indent, piece)
      else if line != "" then
        JoinLoop(w, i + 1, out, lead, line + " " + piece)
      else
        JoinLoop(w, i + 1, out, lead, piece)
  }

  /** The loop produces the layout: whatever the loop's state, as long as
      it has emitted the rendering of the first `i` pieces and holds the
      current line, it finishes with the rendering of all pieces. */
  lemma {:induction false} JoinLoopRenders(w: Layout, i: nat, out: string, lead: string, line: string)
    requires i <= |w.pieces|
    requires line == w.LineBefore(i)
    requires out + lead + line == w.Render(i)
    ensures JoinLoop(w, i, out, lead, line) == w.Render(|w.pieces|)
    decreases |w.pieces| - i, 1
  {
    if i < |w.pieces| {
      if w.BreakAt(i) {
        BreakStep(w, i, out, lead, line);
      } else if line != "" {
        JoinStep(w, i, out, lead, line);
      } else {
        FirstStep(w, i, out, lead);
      }
    }
  }

  /** Piece `i` starts a new line: the current line is emitted. */
  lemma {:induction false} BreakStep(w: Layout, i: nat, out: string, lead: string, line: string)
    requires i < |w.pieces| && w.BreakAt(i)
    requires line == w.LineBefore(i)
    requires out + lead + line == w.Render(i)
    ensures JoinLoop(w, i, out, lead, line) == w.Render(|w.pieces|)
    decreases |w.pieces| - i, 0
  {
    var piece := w.pieces[i];
    var out' := out + lead + line + "\n";
    LayoutStep(w, i);
    LoopBreaks(w, i, out, lead, line);
    BreakRegroup(out, lead, line, w.Render(i), w.indent, piece);
    JoinLoopRenders(w, i + 1, out', w.indent, piece);
  }

  /** Piece `i` joins the current line. */
  lemma {:induction false} JoinStep(w: Layout, i: nat, out: string, lead: string, line: string)
    requires i < |w.pieces| && !w.BreakAt(i)
    requires line == w.LineBefore(i) && line != ""
    requires out + lead + line == w.Render(i)
    ensures JoinLoop(w, i, out, lead, line) == w.Render(|w.pieces|)
    decreases |w.pieces| - i, 0
  {
    var piece := w.pieces[i];
    var line' := line + " " + piece;
    LayoutStep(w, i);
    LoopJoins(w, i, out, lead, line);
    SpaceRegroup(out, lead, line, w.Render(i), piece);
    JoinLoopRenders(w, i + 1, out, lead, line');
  }

  /** Piece `i` opens an empty line. */
  lemma {:induction false} FirstStep(w: Layout, i: nat, out: string, lead: string)
    requires i < |w.pieces| && !w.BreakAt(i)
    requires w.LineBefore(i) == ""
    requires out + lead == w.Render(i)
    ensures JoinLoop(w, i, out, lead, "") == w.Render(|w.pieces|)
    decreases |w.pieces| - i, 0
  {
    var piece := w.pieces[i];
    LayoutStep(w, i);
    LoopOpens(w, i, out, lead);
    OpenRegroup(out, lead, w.Render(i), piece);
    JoinLoopRenders(w, i + 1, out, lead, piece);
  }

  /** One turn of the loop when the piece goes to a new line. */
  lemma LoopBreaks(w: Layout, i: nat, out: string, lead: string, line: string)
    requires i < |w.pieces| && line != "" && (w.force == i || Width(line) + |w.pieces[i]| > w.room)
    ensures JoinLoop(w, i, out, lead, line) == JoinLoop(w, i + 1, out + lead + line + "\n", w.indent, w.pieces[i])
  {
  }

  /** One turn of the loop when the piece joins a non-empty line. */
  lemma LoopJoins(w: Layout, i: nat, out: string, lead: string, line: string)
    requires i < |w.pieces| && line != "" && !(w.force == i || Width(line) + |w.pieces[i]| > w.room)
    ensures JoinLoop(w, i, out, lead, line) == JoinLoop(w, i + 1, out, lead, line + " " + w.pieces[i])
  {
  }

  /** One turn of the loop on an empty line. */
  lemma LoopOpens(w: Layout, i: nat, out: string, lead: string)
    requires i < |w.pieces|
    ensures JoinLoop(w, i, out, lead, "") == JoinLoop(w, i + 1, out, lead, w.pieces[i])
  {
  }

  lemma OpenRegroup(out: string, lead: string, r: string, piece: string)
    requires out + lead == r
    ensures out + lead + piece == r + "" + piece
  {
  }

  lemma BreakRegroup(out: string, lead: string, line: string, r: string, indent: string, piece: string)
    requires out + lead + line == r
    ensures (out + lead + line + "\n") + indent + piece == r + ("\n" + indent) + piece
  {
  }

  lemma SpaceRegroup(out: string, lead: string, line: string, r: string, piece: string)
    requires out + lead + line == r
    ensures out + lead + (line + " " + piece) == r + " " + piece
  {
  }

  /** How placing piece `i` extends the line and the rendering. */
  lemma LayoutStep(w: Layout, i: nat)
    requires i < |w.pieces|
    ensures w.Render(i + 1) == w.Render(i) + w.Gap(i) + w.pieces[i]
    ensures w.BreakAt(i) ==> w.LineBefore(i + 1) == w.pieces[i] && w.Gap(i) == "\n" + w.indent
    ensures !w.BreakAt(i) && w.LineBefore(i) != "" ==>
      w.LineBefore(i + 1) == w.LineBefore(i) + " " + w.pieces[i] && w.Gap(i) == " "
    ensures !w.BreakAt(i) && w.LineBefore(i) == "" ==>
      w.LineBefore(i + 1) == w.pieces[i] && w.Gap(i) == ""
  {
  }

  /** The layout `join` falls back to when the flat rendering is too wide. */
  function JoinLayout(prefix: string, sep: string, end: string, items: seq<string>, force: int, wrap: int): Layout
  {
    var align := Width(prefix);
    Layout(prefix, Indent(align), Pieces(items, sep, end), force, wrap - align)
  }

  /** `join(prefix, sep, end, items, force, wrap)`. */
  function JoinWrap(prefix: string, sep: string, end: string, items: seq<string>, force: int, wrap: int): (r: string)
    ensures var flat := prefix + Join(items, sep + " ") + end;
      Width(flat) <= wrap ==> r == flat
    ensures var flat := prefix + Join(items, sep + " ") + end;
      Width(flat) > wrap ==> r == JoinLayout(prefix, sep, end, items, force, wrap).Render(|items|)
  {
    var flat := prefix + Join(items, sep + " ") + end;
    if Width(flat) <= wrap then flat
    else
      var w := JoinLayout(prefix, sep, end, items, force, wrap);
      JoinLoopRenders(w, 0, "", prefix, "");
      JoinLoop(w, 0, "", prefix, "")
  }

  // ---------------------------------------------------------------------
  // Properties of the layout

  /** The current line always ends with the piece placed last. */
  lemma LineEndsWithPiece(w: Layout, i: nat)
    requires 0 < i <= |w.pieces|
    ensures |w.LineBefore(i)| >= |w.pieces[i - 1]|
    ensures w.LineBefore(i)[|w.LineBefore(i)| - |w.pieces[i - 1]|..] == w.pieces[i - 1]
  {
  }

  /** Every gap is nothing, one space, or a line break followed by the indent;
      a line break exactly where `BreakAt` says. */
  lemma GapShape(w: Layout, i: nat)
    requires i < |w.pieces|
    ensures w.Gap(i) == "" || w.Gap(i) == " " || w.Gap(i) == "\n" + w.indent
    ensures w.Gap(i) == "\n" + w.indent <==> w.BreakAt(i)
  {
    if !w.BreakAt(i) {
      assert |w.Gap(i)| <= 1;
      assert |"\n" + w.indent| >= 1 && ("\n" + w.indent)[0] == '\n';
    }
  }

  /** The rendering is the prefix followed by the pieces in order, each
      preceded by its gap: nothing is dropped, split or reordered. */
  lemma {:induction false} RenderKeepsPieces(w: Layout, i: nat)
    requires i <= |w.pieces|
    ensures StartsWith(w.Render(i), w.prefix)
    ensures i > 0 ==> w.Render(i) == w.Render(i - 1) + w.Gap(i - 1) + w.pieces[i - 1]
    decreases i
  {
    if i > 0 {
      RenderKeepsPieces(w, i - 1);
      var r := w.Render(i - 1);
      LayoutStep(w, i - 1);
      StartsWithAppend(r, w.Gap(i - 1), w.prefix);
      StartsWithAppend(r + w.Gap(i - 1), w.pieces[i - 1], w.prefix);
    }
  }

  lemma StartsWithAppend(s: string, t: string, p: string)
    requires StartsWith(s, p)
    ensures StartsWith(s + t, p)
  {
    assert (s + t)[..|p|] == s[..|p|];
  }

  /** Whatever the width, the output of `join` begins with its prefix. */
  lemma JoinStartsWithPrefix(prefix: string, sep: string, end: string, items: seq<string>, force: int, wrap: int)
    ensures StartsWith(JoinWrap(prefix, sep, end, items, force, wrap), prefix)
  {
    var flat := prefix + Join(items, sep + " ") + end;
    if Width(flat) > wrap {
      RenderKeepsPieces(JoinLayout(prefix, sep, end, items, force, wrap), |items|);
    } else {
      assert flat[..|prefix|] == prefix;
    }
  }

  /** The forced index starts a new line whenever the line before it holds something. */
  lemma ForcedBreak(w: Layout, i: nat)
    requires 0 < i < |w.pieces|
    requires w.force == i
    requires w.pieces[i - 1] != ""
    ensures w.BreakAt(i)
  {
    LineEndsWithPiece(w, i);
  }

  /** A piece longer than the room is never split: it starts a line of its
      own (after a non-empty line) and the piece after it starts the next one. */
  lemma WidePieceAlone(w: Layout, i: nat)
    requires 0 < i < |w.pieces|
    requires w.pieces[i - 1] != ""
    requires w.room >= 0
    requires |w.pieces[i]| > w.room
    ensures w.BreakAt(i)
    ensures w.LineBefore(i + 1) == w.pieces[i]
    ensures i + 1 < |w.pieces| ==> w.BreakAt(i + 1)
  {
    LineEndsWithPiece(w, i);
    if i + 1 < |w.pieces| {
      WidthAppend(w.pieces[i], "");
    }
  }

  /** With no items and a prefix plus terminator too wide for the line,
      `join` returns the bare prefix: the terminator is lost. */
  lemma JoinNoItemsTooWide(prefix: string, sep: string, end: string, force: int, wrap: int)
    requires Width(prefix + end) > wrap
    ensures JoinWrap(prefix, sep, end, [], force, wrap) == prefix
  {
    assert prefix + Join([], sep + " ") + end == prefix + end;
  }

  /** The continuation indent is exactly as wide as the first-line prefix. */
  lemma IndentMatchesPrefix(prefix: string, sep: string, end: string, items: seq<string>, force: int, wrap: int)
    ensures Width(JoinLayout(prefix, sep, end, items, force, wrap).indent) == Width(prefix)
  {
  }
}
