/** The parts of the mainline driver source that depend on the panel's
    data: sleeps, the reset function, the on/off command functions, the
    include list and the compatible string. */
module Driver {
  import opened Wrappers
  import opened Bytes
  import opened Text
  import opened Wrap
  import opened Options
  import opened Mipi
  import opened Fdt
  import opened Panel

  // ---------------------------------------------------------------------
  // Sleeping

  /** A kernel sleep call: `msleep(ms)` or `usleep_range(lo, hi)`. */
  datatype Sleep = MilliSleep(ms: nat) | RangeSleep(lo: nat, hi: nat)

  /** The call `msleep` chooses: short delays use `usleep_range`, since
      `msleep` below 20 ms may sleep up to 20 ms. */
  function SleepFor(m: nat): (r: Sleep)
    ensures r.MilliSleep? <==> m >= 20
  {
    if m >= 20 then MilliSleep(m) else RangeSleep(m * 1000, m * 1000 + 1000)
  }

  /** The shortest delay of a sleep call, in microseconds. */
  function MinMicros(s: Sleep): nat
  {
    match s
    case MilliSleep(ms) => ms * 1000
    case RangeSleep(lo, _) => lo
  }

  /** Whichever call is chosen, it waits at least the requested time, and
      a range allows at most one millisecond more. */
  lemma SleepCoversWait(m: nat)
    ensures MinMicros(SleepFor(m)) == m * 1000
    ensures SleepFor(m).RangeSleep? ==> SleepFor(m).hi == SleepFor(m).lo + 1000
  {
  }

  function RenderSleep(s: Sleep): string
  {
    match s
    case MilliSleep(ms) => "msleep(" + Dec(ms) + ")"
    case RangeSleep(lo, hi) => "usleep_range(" + Dec(lo) + ", " + Dec(hi) + ")"
  }

  /** `msleep(m)`: the C call that sleeps `m` milliseconds. */
  function Msleep(m: nat): (r: string)
    ensures m >= 20 ==> StartsWith(r, "msleep(") && r[|r| - 1] == ')'
    ensures m < 20 ==> StartsWith(r, "usleep_range(") && r[|r| - 1] == ')'
  {
    var r := RenderSleep(SleepFor(m));
    assert m >= 20 ==> r == "msleep(" + Dec(m) + ")";
    assert m < 20 ==> r == "usleep_range(" + Dec(m * 1000) + ", " + Dec(m * 1000 + 1000) + ")";
    r
  }

  /** A long sleep reads back as `msleep` of the requested milliseconds;
      a short one is a `usleep_range`. */
  lemma MsleepParses(m: nat)
    ensures var r := Msleep(m);
      m >= 20 ==> |r| >= 8 && StartsWith(r, "msleep(") && DigitsValue(r[7..|r| - 1], 10) == m && r[|r| - 1] == ')'
    ensures m < 20 ==> StartsWith(Msleep(m), "usleep_range(")
  {
    var r := Msleep(m);
    if m >= 20 {
      assert r[7..|r| - 1] == Dec(m);
    }
  }

  lemma Dec120()
    ensures Dec(120) == "120"
  {
    assert Digits(1, 10) == "1";
    assert Digits(12, 10) == "12";
  }

  lemma Dec19000()
    ensures Dec(19000) == "19000"
    ensures Dec(20000) == "20000"
  {
    assert Digits(1, 10) == "1";
    assert Digits(19, 10) == "19";
    assert Digits(190, 10) == "190";
    assert Digits(1900, 10) == "1900";
    assert Digits(2, 10) == "2";
    assert Digits(20, 10) == "20";
    assert Digits(200, 10) == "200";
    assert Digits(2000, 10) == "2000";
  }

  /** Examples: 120 ms is a plain `msleep`, 19 ms a one-millisecond range. */
  lemma MsleepExamples()
    ensures Msleep(120) == "msleep(120)"
    ensures Msleep(19) == "usleep_range(19000, 20000)"
  {
    Dec120();
    Dec19000();
  }

  // ---------------------------------------------------------------------
  // Reset

  /** `list(zip(itr, itr))` over a word list: consecutive pairs, a trailing
      odd word dropped. */
  function Pairs(ws: seq<nat>): (r: seq<(nat, nat)>)
    ensures |r| == |ws| / 2
    ensures forall i :: 0 <= i < |r| ==> r[i] == (ws[2 * i], ws[2 * i + 1])
  {
    seq(|ws| / 2, i requires 0 <= i < |ws| / 2 => (ws[2 * i], ws[2 * i + 1]))
  }

  function Unpair(ps: seq<(nat, nat)>): (r: seq<nat>)
    ensures |r| == 2 * |ps|
  {
    if |ps| == 0 then [] else [ps[0].0, ps[0].1] + Unpair(ps[1..])
  }

  /** Pairing loses only an odd trailing word. */
  lemma {:induction false} UnpairPairs(ws: seq<nat>)
    ensures Unpair(Pairs(ws)) == ws[..2 * (|ws| / 2)]
    decreases |ws|
  {
    if |ws| >= 2 {
      UnpairPairs(ws[2..]);
      var ps := Pairs(ws);
      assert ps[1..] == Pairs(ws[2..]);
      assert ws[..2 * (|ws| / 2)] == [ws[0], ws[1]] + ws[2..][..2 * (|ws[2..]| / 2)];
    }
  }

  /** `Panel.reset_seq`: nothing without the property, else its words in
      (state, sleep) pairs. */
  function ResetSequence(props: Props): (r: Result<Option<seq<(nat, nat)>>>)
    ensures "qcom,mdss-dsi-reset-sequence" !in props ==> r == Ok(None)
    ensures "qcom,mdss-dsi-reset-sequence" in props ==>
      (r.Ok? <==> |props["qcom,mdss-dsi-reset-sequence"]| % 4 == 0)
    ensures r.Ok? && r.value.Some? ==>
      var ws := AsUint32Array(props["qcom,mdss-dsi-reset-sequence"]).value;
      Unpair(r.value.value) == ws[..2 * (|ws| / 2)]
  {
    match GetpropOrNone(props, "qcom,mdss-dsi-reset-sequence")
    case None => Ok(None)
    case Some(p) =>
      var ws :- AsUint32Array(p);
      UnpairPairs(ws);
      Ok(Some(Pairs(ws)))
  }

  /** The reset GPIO polarity guessed in `generate_driver`: a sequence that
      ends by driving the line to 1 leaves the panel running, so reset
      must be active low. */
  function ResetFlag(pairs: seq<(nat, nat)>): (r: GpioFlag)
    requires |pairs| > 0
    ensures r == ActiveLow <==> pairs[|pairs| - 1].0 == 1
    ensures pairs[|pairs| - 1].0 <= 1 ==> WrittenState(pairs[|pairs| - 1].0, r) == 0
  {
    if pairs[|pairs| - 1].0 == 1 then ActiveLow else ActiveHigh
  }

  /** The logical value written for a raw state: inverted for an active
      low line (`int(not bool(state))`). */
  function WrittenState(state: nat, flag: GpioFlag): (r: nat)
    ensures flag == ActiveHigh ==> r == state
    ensures flag == ActiveLow ==> r <= 1 && (r == 1 <==> state == 0)
  {
    if flag == ActiveLow then (if state == 0 then 1 else 0) else state
  }

  /** The statements for one `(state, sleep)` pair: the GPIO write of the
      state as the line's polarity sees it, then a sleep when one is asked
      for. */
  function ResetLine(pair: (nat, nat), flag: GpioFlag): (r: string)
    ensures var write := "\tgpiod_set_value_cansleep(ctx->reset_gpio, " + Dec(WrittenState(pair.0, flag)) + ");\n";
      (pair.1 == 0 <==> r == write)
      && (pair.1 != 0 ==> r == write + "\t" + Msleep(pair.1) + ";\n")
  {
    var write := "\tgpiod_set_value_cansleep(ctx->reset_gpio, " + Dec(WrittenState(pair.0, flag)) + ");\n";
    if pair.1 != 0 then
      var r := write + ("\t" + Msleep(pair.1) + ";\n");
      assert |r| > |write|;
      r
    else write
  }

  function ResetLines(pairs: seq<(nat, nat)>, flag: GpioFlag): (r: seq<string>)
    ensures |r| == |pairs|
    ensures forall i :: 0 <= i < |pairs| ==> r[i] == ResetLine(pairs[i], flag)
  {
    seq(|pairs|, i requires 0 <= i < |pairs| => ResetLine(pairs[i], flag))
  }

  /** `generate_reset`: nothing without a reset sequence; otherwise a
      function that writes each state and sleeps after it when asked to. */
  function GenerateReset(shortId: string, pairs: seq<(nat, nat)>, flag: GpioFlag): (r: string)
    ensures |pairs| == 0 <==> r == ""
    ensures |pairs| > 0 ==> StartsWith(r, "\nstatic void " + shortId + "_reset(")
  {
    if |pairs| == 0 then ""
    else
      ResetHeadStarts(shortId, Concat(ResetLines(pairs, flag)) + "}\n");
      ResetHead(shortId) + Concat(ResetLines(pairs, flag)) + "}\n"
  }

  /** The header opens the reset function's definition. */
  lemma ResetHeadStarts(shortId: string, rest: string)
    ensures StartsWith(ResetHead(shortId) + rest, "\nstatic void " + shortId + "_reset(")
  {
    var p := "\nstatic void " + shortId + "_reset(";
    assert (ResetHead(shortId) + rest)[..|p|] == p;
  }

  /** Every pair's statements (`ResetLines(pairs, flag)[i]`, which is
      `ResetLine(pairs[i], flag)`) appear in the generated function, each
      directly followed by those of the next pair, and the function body
      closes after the last. */
  lemma ResetLinesListed(shortId: string, pairs: seq<(nat, nat)>, flag: GpioFlag, i: nat)
    requires i < |pairs|
    ensures var r := GenerateReset(shortId, pairs, flag);
      var lines := ResetLines(pairs, flag);
      var k := |ResetHead(shortId)| + |Concat(lines[..i])|;
      Occurs(r, lines[i], k)
      && (i + 1 < |pairs| ==> Occurs(r, lines[i + 1], k + |lines[i]|))
      && (i + 1 == |pairs| ==> Occurs(r, "}\n", k + |lines[i]|))
  {
    ConcatAdjacent(GenerateReset(shortId, pairs, flag), ResetHead(shortId), ResetLines(pairs, flag), "}\n", i);
  }

  /** The signature and opening brace of the generated reset function. */
  function ResetHead(shortId: string): string
  {
    "\nstatic void " + shortId + "_reset(struct " + shortId + " *ctx)\n{\n"
  }

  // ---------------------------------------------------------------------
  // Generated commands

  /** The C statements of a command list, one per command: the first
      command a generator refuses fails the whole list. */
  function GenerateSequence(cmds: seq<Command>, options: Options): (r: Result<seq<string>>)
    ensures r.Ok? <==> forall i :: 0 <= i < |cmds| ==> Generate(cmds[i].kind, cmds[i].payload, options).Ok?
    ensures r.Ok? ==> |r.value| == |cmds|
    ensures r.Ok? ==> forall i :: 0 <= i < |cmds| ==> r.value[i] == Mipi.Render(Generate(cmds[i].kind, cmds[i].payload, options).value)
  {
    if |cmds| == 0 then Ok([])
    else
      var text :- Generate(cmds[0].kind, cmds[0].payload, options);
      match GenerateSequence(cmds[1..], options)
      case Fail(e) =>
        assert !Generate(cmds[1..][0].kind, cmds[1..][0].payload, options).Ok? || exists i :: 0 <= i < |cmds[1..]| && !Generate(cmds[1..][i].kind, cmds[1..][i].payload, options).Ok?;
        Fail(e)
      case Ok(rest) =>
        var r := [Mipi.Render(text)] + rest;
        assert forall i :: 1 <= i < |cmds| ==> cmds[i] == cmds[1..][i - 1];
        Ok(r)
  }

  /** The blank line, statement and delay emitted for command `i` of a
      sequence: a blank line before the first command and around any
      statement with a brace, and a delay only for a wait above the
      ignored limit. */
  function Piece(texts: seq<string>, waits: seq<nat>, ignoreWait: int, i: nat): string
    requires i < |texts| == |waits|
  {
    Lead(texts, i) + texts[i] + "\n" + Delay(waits[i], ignoreWait)
  }

  /** The blank line before statement `i`: before the first one, and
      before and after any statement that opens a block. */
  function Lead(texts: seq<string>, i: nat): string
    requires i < |texts|
  {
    if i == 0 || Opens(texts[i]) || Opens(texts[i - 1]) then "\n" else ""
  }

  /** The statement opens a block. */
  predicate Opens(t: string)
  {
    Contains(t, "{")
  }

  /** The sleep after a command: only for a wait that is set and strictly
      above `ignore_wait`. */
  function Delay(wait: nat, ignoreWait: int): (r: string)
    ensures r != "" <==> wait != 0 && wait > ignoreWait
    ensures r != "" ==> r == "\t" + Msleep(wait) + ";\n"
  {
    if wait != 0 && wait > ignoreWait then "\t" + Msleep(wait) + ";\n" else ""
  }

  function Pieces(texts: seq<string>, waits: seq<nat>, ignoreWait: int, n: nat): string
    requires n <= |texts| == |waits|
  {
    if n == 0 then "" else Pieces(texts, waits, ignoreWait, n - 1) + Piece(texts, waits, ignoreWait, n - 1)
  }

  /** A wait of 120 ms is dropped below an `ignore_wait` of 150 and kept
      above one of 50. */
  lemma WaitExamples(t: string)
    ensures Piece([t], [120], 150, 0) == "\n" + t + "\n"
    ensures Piece([t], [120], 50, 0) == "\n" + t + "\n" + "\tmsleep(120);\n"
  {
    DelayExamples();
    assert Lead([t], 0) == "\n";
  }

  lemma DelayExamples()
    ensures Delay(120, 150) == ""
    ensures Delay(120, 50) == "\tmsleep(120);\n"
  {
    MsleepExamples();
  }

  /** The local variables the statements need: `dev` when some call takes
      it, `ret` when some statement assigns it. */
  function Variables(generated: string): (r: seq<string>)
    ensures |r| >= 1 && r[0] == "struct mipi_dsi_device *dsi = ctx->dsi"
    ensures "struct device *dev = &dsi->dev" in r <==> Contains(generated, "(dev, ")
    ensures "int ret" in r <==> Contains(generated, "ret = ")
  {
    ["struct mipi_dsi_device *dsi = ctx->dsi"]
    + (if Contains(generated, "(dev, ") then ["struct device *dev = &dsi->dev"] else [])
    + (if Contains(generated, "ret = ") then ["int ret"] else [])
  }

  /** The LPM switch at the start of a sequence, only when the two
      sequences are sent in different modes. */
  function LpmLine(on: State, off: State, state: State): (r: string)
    ensures r != "" <==> on != off
  {
    if on != off then
      match state
      case LpMode => "\n\tdsi->mode_flags |= MIPI_DSI_MODE_LPM;\n"
      case HsMode => "\n\tdsi->mode_flags &= ~MIPI_DSI_MODE_LPM;\n"
    else ""
  }

  function CommandsHead(shortId: string, name: string, generated: string, on: State, off: State, state: State): string
  {
    var vars := Variables(generated);
    "static int " + shortId + "_" + name + "(struct " + shortId + " *ctx)\n{\n"
    + Concat(seq(|vars|, i requires 0 <= i < |vars| => "\t" + vars[i] + ";\n"))
    + LpmLine(on, off, state)
  }

  const CommandsTail := "\n\treturn 0;\n}\n"

  /** `generate_commands`: the function of one sequence, its statements
      emitted in order with blank lines and delays between them. */
  method GenerateCommands(shortId: string, name: string, on: State, off: State, state: State,
                          texts: seq<string>, waits: seq<nat>, ignoreWait: int) returns (s: string)
    requires |texts| == |waits|
    ensures s == CommandsHead(shortId, name, Concat(texts), on, off, state)
                 + Pieces(texts, waits, ignoreWait, |texts|) + CommandsTail
  {
    var body := CommandsBody(texts, waits, ignoreWait);
    s := CommandsHead(shortId, name, Concat(texts), on, off, state) + body + CommandsTail;
  }

  /** The loop of `generate_commands`: `block` remembers whether the last
      statement opened a block, so a blank line separates it from the next. */
  method CommandsBody(texts: seq<string>, waits: seq<nat>, ignoreWait: int) returns (s: string)
    requires |texts| == |waits|
    ensures s == Pieces(texts, waits, ignoreWait, |texts|)
  {
    s := "";
    var block := true;
    var i := 0;
    while i < |texts|
      invariant 0 <= i <= |texts|
      invariant block <==> i == 0 || Opens(texts[i - 1])
      invariant s == Pieces(texts, waits, ignoreWait, i)
    {
      var piece, opens := EmitCommand(texts[i], block, waits[i], ignoreWait);
      block := opens;
      assert piece == Lead(texts, i) + texts[i] + "\n" + Delay(waits[i], ignoreWait);
      assert piece == Piece(texts, waits, ignoreWait, i);
      assert Pieces(texts, waits, ignoreWait, i + 1) == Pieces(texts, waits, ignoreWait, i) + Piece(texts, waits, ignoreWait, i);
      s := s + piece;
      i := i + 1;
    }
  }

  /** One pass of the loop: a blank line when a block was just closed or
      is being opened, the statement, and its sleep. */
  method EmitCommand(c: string, block: bool, wait: nat, ignoreWait: int) returns (piece: string, opens: bool)
    ensures opens == Opens(c)
    ensures piece == (if block || opens then "\n" else "") + c + "\n" + Delay(wait, ignoreWait)
  {
    opens := Opens(c);
    piece := "";
    if block || opens {
      piece := "\n";
    }
    piece := piece + c + "\n";
    piece := piece + Delay(wait, ignoreWait);
  }

  // ---------------------------------------------------------------------
  // Includes

  /** Python's string order: code point by code point, a proper prefix first. */
  predicate StrLe(a: string, b: string)
  {
    |a| == 0 || (|b| > 0 && (a[0] < b[0] || (a[0] == b[0] && StrLe(a[1..], b[1..]))))
  }

  lemma {:induction false} StrLeTotal(a: string, b: string)
    ensures StrLe(a, b) || StrLe(b, a)
    decreases |a|
  {
    if |a| > 0 && |b| > 0 && a[0] == b[0] {
      StrLeTotal(a[1..], b[1..]);
    }
  }

  predicate Sorted(s: seq<string>)
  {
    forall i :: 0 < i < |s| ==> StrLe(s[i - 1], s[i])
  }

  function Insert(x: string, s: seq<string>): (r: seq<string>)
    requires Sorted(s)
    ensures Sorted(r)
    ensures multiset(r) == multiset(s) + multiset{x}
    ensures |r| > 0 && (r[0] == x || (|s| > 0 && r[0] == s[0]))
  {
    if |s| == 0 then [x]
    else if StrLe(x, s[0]) then [x] + s
    else
      StrLeTotal(x, s[0]);
      var rest := Insert(x, s[1..]);
      assert s == [s[0]] + s[1..];
      [s[0]] + rest
  }

  /** `sorted(headers)`. */
  function Sort(s: seq<string>): (r: seq<string>)
    ensures Sorted(r)
    ensures multiset(r) == multiset(s)
  {
    if |s| == 0 then []
    else
      assert s == [s[0]] + s[1..];
      Insert(s[0], Sort(s[1..]))
  }

  /** Conditions that add optional headers. */
  datatype IncludeFlags = IncludeFlags(reset: bool, regulator: bool, backlight: bool, dsc: bool)

  datatype Group = Group(name: string, headers: seq<string>)

  /** The include groups in their fixed order: linux, video, drm.
      `mipi_display.h` is needed as soon as one sequence's statements use
      a DCS constant. */
  function IncludeGroups(f: IncludeFlags, generated: seq<string>): (r: seq<Group>)
    ensures |r| == 3 && r[0].name == "linux" && r[1].name == "video" && r[2].name == "drm"
    ensures "mipi_display.h" in r[1].headers <==> exists k :: 0 <= k < |generated| && Contains(generated[k], "MIPI_DCS_")
  {
    var linux := ["module.h", "delay.h", "of.h"]
      + (if f.reset then ["gpio/consumer.h"] else [])
      + (if f.regulator then ["regulator/consumer.h"] else [])
      + (if f.backlight then ["backlight.h"] else []);
    var video := if exists k :: 0 <= k < |generated| && Contains(generated[k], "MIPI_DCS_") then ["mipi_display.h"] else [];
    var drm := ["drm_mipi_dsi.h", "drm_modes.h", "drm_panel.h"]
      + (if f.dsc then ["display/drm_dsc.h", "display/drm_dsc_helper.h"] else []);
    [Group("linux", linux), Group("video", video), Group("drm", drm)]
  }

  function IncludeLine(group: string, header: string): string
  {
    "#include <" + group + "/" + header + ">"
  }

  /** One group: nothing when empty, else a blank line and its headers sorted. */
  function GroupLines(g: Group): (r: seq<string>)
    ensures |g.headers| == 0 <==> r == []
    ensures |r| > 0 ==> r[0] == "" && |r| == |g.headers| + 1
    ensures |r| > 0 ==> forall j :: 1 <= j < |r| ==> r[j] == IncludeLine(g.name, Sort(g.headers)[j - 1])
  {
    if |g.headers| == 0 then []
    else
      var sorted := Sort(g.headers);
      assert |sorted| == |multiset(sorted)| == |g.headers|;
      [""] + seq(|sorted|, j requires 0 <= j < |sorted| => IncludeLine(g.name, sorted[j]))
  }

  /** A group's lines hold the include of exactly its own headers. */
  lemma GroupLinesMember(g: Group, h: string)
    ensures IncludeLine(g.name, h) in GroupLines(g) <==> h in g.headers
  {
    var r := GroupLines(g);
    if |g.headers| > 0 {
      var sorted := Sort(g.headers);
      assert h in sorted <==> h in multiset(sorted);
      if IncludeLine(g.name, h) in r {
        var j :| 0 <= j < |r| && r[j] == IncludeLine(g.name, h);
        assert |IncludeLine(g.name, h)| > 0;
        IncludeLineHeader(g.name, h, sorted[j - 1]);
      }
      if h in sorted {
        var j :| 0 <= j < |sorted| && sorted[j] == h;
        assert r[j + 1] == IncludeLine(g.name, h);
      }
    }
  }

  predicate NoSlash(s: string)
  {
    forall i :: 0 <= i < |s| ==> s[i] != '/'
  }

  /** Within one group an include line names one header. */
  lemma IncludeLineHeader(g: string, h: string, h': string)
    requires IncludeLine(g, h) == IncludeLine(g, h')
    ensures h == h'
  {
    var a := IncludeLine(g, h);
    assert a[11 + |g|..|a| - 1] == h;
    assert a[11 + |g|..|a| - 1] == h';
  }

  /** The first '/' after a slash-free prefix is the one right after it. */
  lemma FirstSlash(x: string, t: string)
    requires NoSlash(x)
    ensures Text.Find(x + "/" + t, "/") == |x|
  {
    FindChar(x + "/" + t, '/', |x|);
  }

  /** An include line names one group and one header (group names have no '/'). */
  lemma IncludeLineInjective(g: string, g': string, h: string, h': string)
    requires NoSlash(g) && NoSlash(g')
    requires IncludeLine(g, h) == IncludeLine(g', h')
    ensures g == g' && h == h'
  {
    var a := IncludeLine(g, h);
    assert a[10..] == g + "/" + (h + ">");
    assert a[10..] == g' + "/" + (h' + ">");
    FirstSlash(g, h + ">");
    FirstSlash(g', h' + ">");
    assert a[10..10 + |g|] == g;
    assert a[10..10 + |g'|] == g';
    IncludeLineHeader(g, h, h');
  }

  function IncludeLines(groups: seq<Group>): seq<string>
  {
    if |groups| == 0 then [] else GroupLines(groups[0]) + IncludeLines(groups[1..])
  }

  /** A header is included under a group exactly when that group lists it. */
  lemma {:induction false} IncludeLinesMember(groups: seq<Group>, g: string, h: string)
    requires NoSlash(g)
    requires forall i :: 0 <= i < |groups| ==> NoSlash(groups[i].name)
    ensures IncludeLine(g, h) in IncludeLines(groups)
        <==> exists i :: 0 <= i < |groups| && groups[i].name == g && h in groups[i].headers
    decreases |groups|
  {
    if |groups| > 0 {
      IncludeLinesMember(groups[1..], g, h);
      var g0 := groups[0];
      if IncludeLine(g, h) in GroupLines(g0) {
        var j :| 0 <= j < |GroupLines(g0)| && GroupLines(g0)[j] == IncludeLine(g, h);
        assert |IncludeLine(g, h)| > 0;
        IncludeLineInjective(g, g0.name, h, Sort(g0.headers)[j - 1]);
        GroupLinesMember(g0, h);
      }
      if g0.name == g && h in g0.headers {
        GroupLinesMember(g0, h);
      }
      forall i | 1 <= i < |groups|
        ensures groups[i] == groups[1..][i - 1]
      {
      }
    }
  }

  /** `generate_includes`: the non-empty groups, each after a blank line. */
  function GenerateIncludes(f: IncludeFlags, generated: seq<string>): (r: string)
    ensures StartsWith(r, "\n#include <linux/")
  {
    IncludesOpen(f, generated);
    Join(IncludeLines(IncludeGroups(f, generated)), "\n")
  }

  /** The `linux` group is never empty, so the includes open with a blank
      line and a `linux/` header. */
  lemma IncludesOpen(f: IncludeFlags, generated: seq<string>)
    ensures StartsWith(Join(IncludeLines(IncludeGroups(f, generated)), "\n"), "\n#include <linux/")
  {
    var groups := IncludeGroups(f, generated);
    var lines := IncludeLines(groups);
    LinuxLinesOpen(groups[0]);
    assert lines == GroupLines(groups[0]) + IncludeLines(groups[1..]);
    JoinBlankFirst(lines, "\n", "#include <linux/");
    LinuxPrefix();
  }

  lemma LinuxPrefix()
    ensures "\n" + "#include <linux/" == "\n#include <linux/"
  {
  }

  lemma LinuxLinesOpen(g: Group)
    requires g.name == "linux" && |g.headers| > 0
    ensures var r := GroupLines(g);
      |r| >= 2 && r[0] == "" && StartsWith(r[1], "#include <linux/")
  {
    var h := Sort(g.headers)[0];
    var p := "#include <linux/";
    assert IncludeLine("linux", h)[..|p|] == p;
  }

  /** A list that opens with an empty string and then a line starting
      with `p` joins to text starting with the separator and `p`. */
  lemma JoinBlankFirst(lines: seq<string>, sep: string, p: string)
    requires |lines| >= 2 && lines[0] == "" && StartsWith(lines[1], p)
    ensures StartsWith(Join(lines, sep), sep + p)
  {
    var j := Join(lines[1..], sep);
    assert Join(lines, sep) == sep + j;
    JoinHead(lines[1..], sep);
    assert j[..|p|] == p;
    assert (sep + j)[..|sep + p|] == sep + p;
  }

  /** `mipi_display.h` is included exactly when some sequence uses a DCS constant. */
  lemma MipiDisplayIncludedIff(f: IncludeFlags, generated: seq<string>)
    ensures IncludeLine("video", "mipi_display.h") in IncludeLines(IncludeGroups(f, generated))
        <==> exists k :: 0 <= k < |generated| && Contains(generated[k], "MIPI_DCS_")
  {
    var groups := IncludeGroups(f, generated);
    GroupNamesNoSlash(groups);
    IncludeLinesMember(groups, "video", "mipi_display.h");
    VideoGroup(groups, "mipi_display.h");
  }

  lemma GroupNamesNoSlash(groups: seq<Group>)
    requires |groups| == 3 && groups[0].name == "linux" && groups[1].name == "video" && groups[2].name == "drm"
    ensures NoSlash("video")
    ensures forall i :: 0 <= i < |groups| ==> NoSlash(groups[i].name)
  {
    assert NoSlash("video") && NoSlash("linux") && NoSlash("drm");
  }

  /** Only the second of the three groups is named "video". */
  lemma VideoGroup(groups: seq<Group>, h: string)
    requires |groups| == 3 && groups[0].name == "linux" && groups[1].name == "video" && groups[2].name == "drm"
    ensures (exists i :: 0 <= i < |groups| && groups[i].name == "video" && h in groups[i].headers)
        <==> h in groups[1].headers
  {
    if exists i :: 0 <= i < |groups| && groups[i].name == "video" && h in groups[i].headers {
      var i :| 0 <= i < |groups| && groups[i].name == "video" && h in groups[i].headers;
      assert groups[0].name[0] != 'v' && groups[2].name[0] != 'v';
      assert i == 1;
    }
  }

  // ---------------------------------------------------------------------
  // Compatible string

  /** The `compatible` of the generated driver: the short id with '-' for
      '_'; a leading alphabetic word is taken as the vendor, otherwise the
      vendor is "mdss". */
  function Compatible(shortId: string): (r: string)
    ensures !IsAlpha(SplitOnce(ReplaceAll(shortId, "_", "-"), '-')[0]) ==> StartsWith(r, "mdss,")
  {
    var dash := ReplaceAll(shortId, "_", "-");
    var parts := SplitOnce(dash, '-');
    if IsAlpha(parts[0]) then Join(parts, ",")
    else
      var r := "mdss," + Join(parts, "-");
      assert r[..5] == "mdss,";
      r
  }

  /** The three shapes of the compatible string, in terms of the dashed id. */
  lemma CompatibleForm(shortId: string)
    ensures var dash := MapChar(shortId, '_', '-');
      var parts := SplitOnce(dash, '-');
      Compatible(shortId)
        == if !IsAlpha(parts[0]) then "mdss," + dash
           else if |parts| == 1 then dash
           else parts[0] + "," + parts[1]
  {
    ReplaceChar(shortId, '_', '-');
    var dash := MapChar(shortId, '_', '-');
    var parts := SplitOnce(dash, '-');
    SplitOnceJoins(dash, '-');
    if |parts| == 2 {
      assert Join(parts, ",") == parts[0] + "," + parts[1];
    }
  }

  /** A vendor word before the first '-' becomes the vendor prefix: the
      first '-' turns into ','. */
  lemma CompatibleVendor(shortId: string, i: nat)
    requires var dash := MapChar(shortId, '_', '-');
      i < |dash| && dash[i] == '-' && IsAlpha(dash[..i])
    ensures var dash := MapChar(shortId, '_', '-');
      Compatible(shortId) == dash[..i] + "," + dash[i + 1..]
  {
    var dash := MapChar(shortId, '_', '-');
    forall k | 0 <= k < i
      ensures dash[k] != '-'
    {
      assert dash[..i][k] == dash[k];
    }
    SplitOnceAt(dash, '-', i);
    CompatibleForm(shortId);
  }

  /** An id with no vendor word is filed under "mdss", whole. */
  lemma CompatibleUnknownVendor(shortId: string)
    requires !IsAlpha(SplitOnce(MapChar(shortId, '_', '-'), '-')[0])
    ensures Compatible(shortId) == "mdss," + MapChar(shortId, '_', '-')
  {
    CompatibleForm(shortId);
  }

  /** No '_' survives into the compatible string. */
  lemma CompatibleNoUnderscore(shortId: string)
    ensures NoUnderscore(Compatible(shortId))
  {
    DashNoUnderscore(shortId);
    CompatibleForm(shortId);
    FormNoUnderscore(MapChar(shortId, '_', '-'));
  }

  /** Each of the three shapes keeps a dashed id free of '_'. */
  lemma FormNoUnderscore(dash: string)
    requires NoUnderscore(dash)
    ensures var parts := SplitOnce(dash, '-');
      NoUnderscore(if !IsAlpha(parts[0]) then "mdss," + dash
                   else if |parts| == 1 then dash
                   else parts[0] + "," + parts[1])
  {
    var parts := SplitOnce(dash, '-');
    if !IsAlpha(parts[0]) {
      NoUnderscoreAfter("mdss,", dash);
    } else if |parts| == 2 {
      VendorNoUnderscore(dash);
    }
  }

  lemma DashNoUnderscore(s: string)
    ensures NoUnderscore(MapChar(s, '_', '-'))
  {
  }

  lemma VendorNoUnderscore(dash: string)
    requires NoUnderscore(dash) && |SplitOnce(dash, '-')| == 2
    ensures var parts := SplitOnce(dash, '-'); NoUnderscore(parts[0] + "," + parts[1])
  {
    var parts := SplitOnce(dash, '-');
    SplitOnceJoins(dash, '-');
    assert Join(parts, "-") == parts[0] + "-" + parts[1];
    NoUnderscoreSwap(parts[0], parts[1]);
  }

  predicate NoUnderscore(s: string)
  {
    forall k :: 0 <= k < |s| ==> s[k] != '_'
  }

  lemma NoUnderscoreAfter(p: string, s: string)
    requires NoUnderscore(p) && NoUnderscore(s)
    ensures NoUnderscore(p + s)
  {
    assert forall k :: |p| <= k < |p + s| ==> (p + s)[k] == s[k - |p|];
  }

  lemma NoUnderscoreSwap(p: string, q: string)
    requires NoUnderscore(p + "-" + q)
    ensures NoUnderscore(p + "," + q)
  {
    assert forall k :: 0 <= k < |p| ==> (p + "," + q)[k] == (p + "-" + q)[k];
    assert forall k :: |p| < k < |p| + 1 + |q| ==> (p + "," + q)[k] == (p + "-" + q)[k];
  }

  /** `split('-', 1)` cuts at the first '-'. */
  lemma SplitOnceAt(s: string, c: char, i: nat)
    requires i < |s| && s[i] == c
    requires forall j :: 0 <= j < i ==> s[j] != c
    ensures SplitOnce(s, c) == [s[..i], s[i + 1..]]
  {
    FindChar(s, c, i);
  }
}
