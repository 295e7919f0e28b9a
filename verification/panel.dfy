/** The panel description read from the device tree: the DSI command
    stream decoder of `CommandSequence`, the lane map and traffic mode
    enums, and the derivation of the panel's id strings. */
module Panel {
  import opened Wrappers
  import opened Bytes
  import opened Text
  import opened Mipi
  import opened Fdt

  // ---------------------------------------------------------------------
  // Command stream

  /** One DSI command of a sequence: transaction type, the last/vc/ack
      bytes of the record, the delay after it in milliseconds, and its
      payload. */
  datatype Command = Command(kind: Transaction, last: byte, vc: byte, ack: byte, wait: byte, payload: seq<byte>)

  /** Short packet types carry at most `max_args + 1` bytes; longer
      payloads in the stream are cut to that length.  Types without a
      limit keep their payload. */
  function Clip(t: Transaction, p: seq<byte>): (r: seq<byte>)
    ensures |r| <= |p| && r == p[..|r|]
    ensures Entry(t).maxArgs < 0 ==> r == p
    ensures Entry(t).maxArgs >= 0 ==> |r| == if |p| < Entry(t).maxArgs + 1 then |p| else Entry(t).maxArgs + 1
  {
    var maxLen := Entry(t).maxArgs + 1;
    if 0 < maxLen < |p| then p[..maxLen] else p
  }

  /** The payload of `c` respects its type's argument limit. */
  predicate WithinLimit(c: Command)
  {
    Entry(c.kind).maxArgs >= 0 ==> |c.payload| <= Entry(c.kind).maxArgs + 1
  }

  /** The payload length `hi << 8 | lo` of a record header. */
  function Length(hi: byte, lo: byte): nat
  {
    hi as int * 256 + lo as int
  }

  /** One record at the start of a non-empty stream, and the stream after
      it.  Running out of bytes in the header or the payload is an error,
      and so is a type byte that names no transaction (checked once the
      payload has been read). */
  function Next(s: seq<byte>): (r: Result<(Command, seq<byte>)>)
    requires |s| > 0
    ensures r.Ok? ==> |r.value.1| < |s| && WithinLimit(r.value.0)
    ensures r.Ok? ==> 7 + |r.value.1| <= |s| && s[|s| - |r.value.1|..] == r.value.1
  {
    if |s| < 7 then Fail(Truncated)
    else
      var dlen := Length(s[5], s[6]);
      if |s| < 7 + dlen then Fail(Truncated)
      else match TransactionOf(s[0])
        case None => Fail(BadValue("Transaction"))
        case Some(t) => Ok((Command(t, s[1], s[2], s[3], s[4], Clip(t, s[7..7 + dlen])), s[7 + dlen..]))
  }

  /** Prefix the commands of a decoding result, keeping its failure. */
  function Prepend(x: seq<Command>, r: Result<seq<Command>>): Result<seq<Command>>
  {
    match r
    case Ok(y) => Ok(x + y)
    case Fail(e) => Fail(e)
  }

  /** The loop of `CommandSequence.__init__`: records of seven header bytes
      (type, last, vc, ack, wait, 16-bit big-endian length) followed by the
      payload, back to back until the stream ends.  A record cut short and
      an unknown type are errors; the stream order is kept. */
  function Decode(s: seq<byte>): (r: Result<seq<Command>>)
    ensures r.Ok? ==> forall i :: 0 <= i < |r.value| ==> WithinLimit(r.value[i])
    ensures r.Ok? ==> 7 * |r.value| <= |s|
    decreases |s|
  {
    if |s| == 0 then Ok([])
    else match Next(s)
      case Fail(e) => Fail(e)
      case Ok(step) => Prepend([step.0], Decode(step.1))
  }

  /** A record followed by more bytes is read the same way, and leaves
      those bytes behind. */
  lemma NextConcat(a: seq<byte>, b: seq<byte>)
    requires |a| > 0 && Next(a).Ok?
    ensures Next(a + b) == Ok((Next(a).value.0, Next(a).value.1 + b))
  {
    var s := a + b;
    var dlen := Length(a[5], a[6]);
    assert s[..7] == a[..7];
    assert s[7..7 + dlen] == a[7..7 + dlen];
    assert s[7 + dlen..] == a[7 + dlen..] + b;
  }

  /** A record cut short fails whatever follows the cut in its place. */
  lemma NextFailConcat(a: seq<byte>, b: seq<byte>)
    requires |a| > 0 && Next(a).Fail?
    requires |b| == 0
    ensures Next(a + b) == Next(a)
  {
    assert a + b == a;
  }

  /** The record of one command in the stream format. */
  function Encode(c: Command): (r: seq<byte>)
    requires |c.payload| < 0x1_0000
    ensures |r| == 7 + |c.payload|
  {
    [Entry(c.kind).value, c.last, c.vc, c.ack, c.wait, |c.payload| / 256, |c.payload| % 256] + c.payload
  }

  predicate Encodable(cs: seq<Command>)
  {
    forall i :: 0 <= i < |cs| ==> |cs[i].payload| < 0x1_0000
  }

  function EncodeAll(cs: seq<Command>): seq<byte>
    requires Encodable(cs)
  {
    if |cs| == 0 then [] else Encode(cs[0]) + EncodeAll(cs[1..])
  }

  /** What decoding keeps of a command: its payload clipped. */
  function Clipped(c: Command): Command
  {
    c.(payload := Clip(c.kind, c.payload))
  }

  function ClippedAll(cs: seq<Command>): (r: seq<Command>)
    ensures |r| == |cs|
    ensures forall i :: 0 <= i < |cs| ==> r[i] == Clipped(cs[i])
  {
    seq(|cs|, i requires 0 <= i < |cs| => Clipped(cs[i]))
  }

  /** Decoding a stream that starts with well-formed records decodes those
      records and then carries on with the rest, failing as the rest does. */
  lemma {:induction false} DecodeConcat(a: seq<byte>, b: seq<byte>)
    requires Decode(a).Ok?
    ensures Decode(a + b) == Prepend(Decode(a).value, Decode(b))
    decreases |a|
  {
    if |a| == 0 {
      assert a + b == b;
      match Decode(b)
      case Ok(y) => assert [] + y == y;
      case Fail(_) =>
    } else {
      DecodeStep(a);
      var step := Next(a).value;
      NextConcat(a, b);
      DecodeStep(a + b);
      assert Decode(step.1).Ok?;
      DecodeConcat(step.1, b);
      PrependAssoc([step.0], Decode(step.1).value, Decode(b));
    }
  }

  /** Decoding a non-empty stream reads one record and decodes the rest. */
  lemma DecodeStep(s: seq<byte>)
    requires |s| > 0
    ensures Decode(s).Ok? ==> Next(s).Ok?
    ensures Next(s).Ok? ==> Decode(s) == Prepend([Next(s).value.0], Decode(Next(s).value.1))
  {
  }

  lemma PrependAssoc(x: seq<Command>, y: seq<Command>, r: Result<seq<Command>>)
    ensures Prepend(x, Prepend(y, r)) == Prepend(x + y, r)
  {
    if r.Ok? {
      assert x + (y + r.value) == (x + y) + r.value;
    }
  }

  /** One encoded record decodes to that command, clipped. */
  lemma DecodeOne(c: Command)
    requires |c.payload| < 0x1_0000
    ensures Decode(Encode(c)) == Ok([Clipped(c)])
  {
    var s := Encode(c);
    var n := |c.payload|;
    assert Length(s[5], s[6]) == n;
    assert s[7..7 + n] == c.payload;
    assert s[7 + n..] == [];
    TransactionOfEntry(c.kind);
    assert s[1] == c.last && s[2] == c.vc && s[3] == c.ack && s[4] == c.wait;
    assert Next(s) == Ok((Clipped(c), []));
    assert Decode([]) == Ok([]);
    assert [Clipped(c)] + [] == [Clipped(c)];
    assert Decode(s) == Prepend([Clipped(c)], Decode([]));
  }

  /** A short DCS write record carrying `[0x29, 0x01]` is clipped while
      decoding: the type takes no arguments after the command byte, so only
      `[0x29]` (set display on) reaches code generation. */
  lemma DisplayOnRecordClipped()
    ensures Decode([0x05, 0, 0, 0, 0, 0, 2, 0x29, 0x01]) == Ok([Command(DcsShortWrite, 0, 0, 0, 0, [0x29])])
  {
    var c := Command(DcsShortWrite, 0, 0, 0, 0, [0x29, 0x01]);
    assert Encode(c) == [0x05, 0, 0, 0, 0, 0, 2, 0x29, 0x01];
    DecodeOne(c);
    assert Clip(DcsShortWrite, [0x29, 0x01]) == [0x29];
  }

  /** Decoding the encoding of a command list gives the list back, each
      payload clipped to its type's limit. */
  lemma {:induction false} DecodeEncode(cs: seq<Command>)
    requires Encodable(cs)
    ensures Decode(EncodeAll(cs)) == Ok(ClippedAll(cs))
    decreases |cs|
  {
    if |cs| > 0 {
      DecodeOne(cs[0]);
      DecodeEncode(cs[1..]);
      DecodeConcat(Encode(cs[0]), EncodeAll(cs[1..]));
      assert ClippedAll(cs) == [Clipped(cs[0])] + ClippedAll(cs[1..]);
    }
  }

  /** A stream that ends inside a record fails as a whole, whatever
      complete records precede it: no partial command is produced. */
  lemma CutRecordFails(cs: seq<Command>, c: Command, k: nat)
    requires Encodable(cs) && |c.payload| < 0x1_0000
    requires 0 < k < |Encode(c)|
    ensures Decode(EncodeAll(cs) + Encode(c)[..k]) == Fail(Truncated)
  {
    var cut := Encode(c)[..k];
    if k >= 7 {
      assert Length(cut[5], cut[6]) == |c.payload|;
    }
    assert Next(cut) == Fail(Truncated);
    assert Decode(cut) == Fail(Truncated);
    DecodeEncode(cs);
    DecodeConcat(EncodeAll(cs), cut);
  }

  /** A complete record whose type byte names no transaction is an error. */
  lemma UnknownTypeFails(s: seq<byte>)
    requires |s| >= 7 && |s| >= 7 + Length(s[5], s[6])
    requires TransactionOf(s[0]).None?
    ensures Decode(s) == Fail(BadValue("Transaction"))
  {
    assert Next(s) == Fail(BadValue("Transaction"));
  }

  /** The concatenation of several streams. */
  function Flatten(ss: seq<seq<byte>>): seq<byte>
  {
    if |ss| == 0 then [] else ss[0] + Flatten(ss[1..])
  }

  lemma FlattenFive(a: seq<byte>, b: seq<byte>, c: seq<byte>, d: seq<byte>, e: seq<byte>)
    ensures Flatten([a, b, c, d, e]) == a + b + c + d + e
  {
    var s1: seq<seq<byte>> := [e];
    var s2: seq<seq<byte>> := [d, e];
    var s3: seq<seq<byte>> := [c, d, e];
    var s4: seq<seq<byte>> := [b, c, d, e];
    var s5: seq<seq<byte>> := [a, b, c, d, e];
    assert s1[1..] == [];
    assert Flatten(s1) == e;
    assert s2[1..] == s1;
    assert Flatten(s2) == d + e;
    assert s3[1..] == s2;
    assert Flatten(s3) == c + d + e;
    assert s4[1..] == s3;
    assert Flatten(s4) == b + c + d + e;
    assert s5[1..] == s4;
  }

  /** The concatenation of several command lists. */
  function FlattenCommands(cs: seq<seq<Command>>): seq<Command>
  {
    if |cs| == 0 then [] else cs[0] + FlattenCommands(cs[1..])
  }

  /** Streams that each decode on their own decode together to the
      commands of each, in order. */
  lemma {:induction false} DecodeFlatten(ss: seq<seq<byte>>)
    requires forall i :: 0 <= i < |ss| ==> Decode(ss[i]).Ok?
    ensures Decode(Flatten(ss)) == Ok(FlattenCommands(seq(|ss|, i requires 0 <= i < |ss| => Decode(ss[i]).value)))
    decreases |ss|
  {
    var parts := seq(|ss|, i requires 0 <= i < |ss| => Decode(ss[i]).value);
    if |ss| > 0 {
      DecodeFlatten(ss[1..]);
      var rest := seq(|ss| - 1, i requires 0 <= i < |ss| - 1 => Decode(ss[1..][i]).value);
      assert parts[1..] == rest;
      DecodeConcat(ss[0], Flatten(ss[1..]));
    }
  }

  // ---------------------------------------------------------------------
  // Command sequences of a panel node

  /** `fdt.getprop_or_none(...)` read as a stream: a missing or empty
      property contributes no bytes. */
  function Extra(props: Props, name: string): (r: seq<byte>)
    ensures name !in props ==> r == []
    ensures name in props ==> r == props[name]
  {
    match GetpropOrNone(props, name)
    case None => []
    case Some(p) => p
  }

  function CommandKey(cmd: string): string
  {
    "qcom,mdss-dsi-" + cmd + "-command"
  }

  /** The properties whose streams make up the 'on' sequence, in order;
      the vendor-specific ones are optional. */
  function OnParts(props: Props): seq<seq<byte>>
    requires CommandKey("on") in props
  {
    [Extra(props, "somc,mdss-dsi-init-command"),
     props[CommandKey("on")],
     Extra(props, "qcom,mdss-dsi-post-panel-on-command"),
     Extra(props, "qcom,mdss-dsi-post-on-backlight"),
     Extra(props, "lge,display-on-cmds")]
  }

  /** The byte stream of sequence `cmd`: nothing when its command property
      is missing (even when the vendor extras exist); for 'on' the Sony
      init commands go first and the post-on and LG commands follow. */
  function CommandStream(props: Props, cmd: string): (r: Option<seq<byte>>)
    ensures r.None? <==> CommandKey(cmd) !in props
    ensures r.Some? && cmd != "on" ==> r.value == props[CommandKey(cmd)]
    ensures r.Some? && cmd == "on" ==> r.value == Flatten(OnParts(props))
  {
    match GetpropOrNone(props, CommandKey(cmd))
    case None => None
    case Some(p) =>
      if cmd == "on" then
        var parts := OnParts(props);
        FlattenFive(parts[0], parts[1], parts[2], parts[3], parts[4]);
        assert parts == [parts[0], parts[1], parts[2], parts[3], parts[4]];
        Some(Extra(props, "somc,mdss-dsi-init-command") + p
             + Extra(props, "qcom,mdss-dsi-post-panel-on-command")
             + Extra(props, "qcom,mdss-dsi-post-on-backlight")
             + Extra(props, "lge,display-on-cmds"))
      else Some(p)
  }

  /** When every part of the 'on' stream decodes, the 'on' commands are
      the init, on, post-panel-on, post-on-backlight and LG commands in
      that order. */
  lemma OnCommandsInOrder(props: Props)
    requires CommandKey("on") in props
    requires forall i :: 0 <= i < 5 ==> Decode(OnParts(props)[i]).Ok?
    ensures Decode(CommandStream(props, "on").value)
         == Ok(FlattenCommands(seq(5, i requires 0 <= i < 5 => Decode(OnParts(props)[i]).value)))
  {
    DecodeFlatten(OnParts(props));
  }

  /** `CommandSequence.State`. */
  datatype State = LpMode | HsMode

  function StateValue(s: State): string
  {
    match s
    case LpMode => "dsi_lp_mode"
    case HsMode => "dsi_hs_mode"
  }

  function StateOf(v: string): (r: Option<State>)
    ensures r.Some? ==> StateValue(r.value) == v
    ensures r.None? ==> forall s :: StateValue(s) != v
  {
    if v == "dsi_lp_mode" then Some(LpMode)
    else if v == "dsi_hs_mode" then Some(HsMode)
    else None
  }

  datatype CommandSequence = CommandSequence(state: State, cmds: seq<Command>)

  function StateKey(cmd: string): string
  {
    "qcom,mdss-dsi-" + cmd + "-command-state"
  }

  /** `CommandSequence.__init__`: the required state property, then the
      commands of the stream (none when the command property is missing). */
  function ParseSequence(props: Props, cmd: string): (r: Result<CommandSequence>)
    ensures StateKey(cmd) !in props ==> r == Fail(Missing(StateKey(cmd)))
    ensures r.Ok? ==> StateKey(cmd) in props && AsStr(props[StateKey(cmd)]) == Ok(StateValue(r.value.state))
    ensures r.Ok? && CommandKey(cmd) !in props ==> r.value.cmds == []
    ensures r.Ok? && CommandKey(cmd) in props ==> Decode(CommandStream(props, cmd).value) == Ok(r.value.cmds)
  {
    match GetpropOrNone(props, StateKey(cmd))
    case None => Fail(Missing(StateKey(cmd)))
    case Some(p) =>
      var v :- AsStr(p);
      match StateOf(v)
      case None => Fail(BadValue("State"))
      case Some(state) =>
        match CommandStream(props, cmd)
        case None => Ok(CommandSequence(state, []))
        case Some(stream) =>
          var cmds :- Decode(stream);
          Ok(CommandSequence(state, cmds))
  }

  // ---------------------------------------------------------------------
  // Text as a device-tree string property

  /** The bytes of an 8-bit text. */
  function StrBytes(s: string): (r: seq<byte>)
    requires forall i :: 0 <= i < |s| ==> s[i] as int < 256
    ensures |r| == |s|
    ensures Chars(r) == s
  {
    seq(|s|, i requires 0 <= i < |s| => s[i] as int)
  }

  /** A NUL-free 8-bit text stored as a string property reads back as itself. */
  lemma AsStrOfText(s: string)
    requires forall i :: 0 <= i < |s| ==> 0 < s[i] as int < 256
    ensures IsStr(StrBytes(s) + [0]) == Ok(true)
    ensures AsStr(StrBytes(s) + [0]) == Ok(s)
  {
    TerminatedIsStr(StrBytes(s));
    assert (StrBytes(s) + [0])[..|s|] == StrBytes(s);
  }

  // ---------------------------------------------------------------------
  // Lane map

  /** `LaneMap`, named by its logical-to-physical lane order. */
  datatype LaneMap = Map0123 | Map3012 | Map2301 | Map1230 | Map0321 | Map1032 | Map2103 | Map3210

  /** The members in declaration order (`LaneMap.__members__`). */
  const AllLaneMaps: seq<LaneMap> := [Map0123, Map3012, Map2301, Map1230, Map0321, Map1032, Map2103, Map3210]

  /** The position of `m` among the members. */
  function LaneMapIndex(m: LaneMap): (r: nat)
    ensures r < |AllLaneMaps| && AllLaneMaps[r] == m
  {
    match m
    case Map0123 => 0
    case Map3012 => 1
    case Map2301 => 2
    case Map1230 => 3
    case Map0321 => 4
    case Map1032 => 5
    case Map2103 => 6
    case Map3210 => 7
  }

  /** `log2phys`: the physical lane of each logical lane. */
  function Log2Phys(m: LaneMap): (r: seq<nat>)
    ensures |r| == 4
    ensures forall i :: 0 <= i < 4 ==> r[i] < 4
  {
    match m
    case Map0123 => [0, 1, 2, 3]
    case Map3012 => [3, 0, 1, 2]
    case Map2301 => [2, 3, 0, 1]
    case Map1230 => [1, 2, 3, 0]
    case Map0321 => [0, 3, 2, 1]
    case Map1032 => [1, 0, 3, 2]
    case Map2103 => [2, 1, 0, 3]
    case Map3210 => [3, 2, 1, 0]
  }

  /** The enum value: "lane_map_" followed by the digits of `log2phys`. */
  function LaneMapValue(m: LaneMap): (r: string)
    ensures |r| == 13 && r[..9] == "lane_map_"
    ensures forall i :: 0 <= i < 4 ==> r[9 + i] == DigitChar(Log2Phys(m)[i])
  {
    match m
    case Map0123 => "lane_map_0123"
    case Map3012 => "lane_map_3012"
    case Map2301 => "lane_map_2301"
    case Map1230 => "lane_map_1230"
    case Map0321 => "lane_map_0321"
    case Map1032 => "lane_map_1032"
    case Map2103 => "lane_map_2103"
    case Map3210 => "lane_map_3210"
  }

  /** Writing `phys2log[n] = i` for the first `k` pairs `(i, n)` of
      `log2phys`, starting from all zeros. */
  function Invert(l: seq<nat>, k: nat): (r: seq<nat>)
    requires k <= |l|
    requires forall i :: 0 <= i < |l| ==> l[i] < 4
    ensures |r| == 4
  {
    if k == 0 then [0, 0, 0, 0] else Invert(l, k - 1)[l[k - 1] := k - 1]
  }

  /** `phys2log`: the logical lane of each physical lane. */
  function Phys2Log(m: LaneMap): seq<nat>
  {
    Invert(Log2Phys(m), 4)
  }

  predicate Injective(l: seq<nat>)
  {
    forall i, j :: 0 <= i < j < |l| ==> l[i] != l[j]
  }

  /** With distinct entries no later write overwrites an earlier one. */
  lemma {:induction false} InvertLeft(l: seq<nat>, k: nat, i: nat)
    requires k <= |l| && i < k
    requires forall j :: 0 <= j < |l| ==> l[j] < 4
    requires Injective(l)
    ensures Invert(l, k)[l[i]] == i
    decreases k
  {
    if i < k - 1 {
      InvertLeft(l, k - 1, i);
    }
  }

  /** Every lane map is a permutation of the four lanes. */
  lemma LaneMapIsPermutation(m: LaneMap)
    ensures Injective(Log2Phys(m))
    ensures forall p :: 0 <= p < 4 ==> p in Log2Phys(m)
  {
  }

  /** `phys2log` and `log2phys` are inverse permutations. */
  lemma Phys2LogInverse(m: LaneMap)
    ensures forall i :: 0 <= i < 4 ==> Phys2Log(m)[Log2Phys(m)[i]] == i
    ensures forall p :: 0 <= p < 4 ==> Phys2Log(m)[p] < 4 && Log2Phys(m)[Phys2Log(m)[p]] == p
  {
    var l := Log2Phys(m);
    LaneMapIsPermutation(m);
    forall i | 0 <= i < 4
      ensures Phys2Log(m)[l[i]] == i
    {
      InvertLeft(l, 4, i);
    }
    forall p | 0 <= p < 4
      ensures Phys2Log(m)[p] < 4 && l[Phys2Log(m)[p]] == p
    {
      var i :| 0 <= i < 4 && l[i] == p;
      InvertLeft(l, 4, i);
    }
  }

  function FindLaneMap(v: string, ms: seq<LaneMap>): (r: Option<LaneMap>)
    ensures r.Some? ==> r.value in ms && LaneMapValue(r.value) == v
    ensures r.None? ==> forall i :: 0 <= i < |ms| ==> LaneMapValue(ms[i]) != v
  {
    if |ms| == 0 then None
    else if LaneMapValue(ms[0]) == v then Some(ms[0])
    else FindLaneMap(v, ms[1..])
  }

  /** `LaneMap(value)`: the member with that value, if any. */
  function LaneMapOf(v: string): (r: Option<LaneMap>)
    ensures r.Some? ==> LaneMapValue(r.value) == v
    ensures r.None? ==> forall m :: LaneMapValue(m) != v
  {
    var r := FindLaneMap(v, AllLaneMaps);
    forall m
      ensures r.None? ==> LaneMapValue(m) != v
    {
      var k := LaneMapIndex(m);
      assert AllLaneMaps[k] == m;
    }
    r
  }

  lemma LaneMapValuesDistinct(m: LaneMap, n: LaneMap)
    requires LaneMapValue(m) == LaneMapValue(n)
    ensures m == n
  {
    assert LaneMapValue(m)[9..] == LaneMapValue(n)[9..];
  }

  /** `LaneMap.parse`: a missing or empty property is the identity map, a
      string names a member (or is a ValueError), and any other bytes fall
      back to the identity map. */
  function ParseLaneMap(prop: Option<seq<byte>>): (r: Result<LaneMap>)
    ensures prop.None? ==> r == Ok(Map0123)
    ensures prop.Some? && IsStr(prop.value) != Ok(true) ==> r == Ok(Map0123)
    ensures r.Fail? <==> prop.Some? && IsStr(prop.value) == Ok(true) && LaneMapOf(AsStr(prop.value).value).None?
  {
    match prop
    case None => Ok(Map0123)
    case Some(p) =>
      if |p| == 0 then Ok(Map0123)
      else if IsStr(p) == Ok(true) then
        match LaneMapOf(AsStr(p).value)
        case None => Fail(BadValue("LaneMap"))
        case Some(m) => Ok(m)
      else Ok(Map0123)
  }

  /** Each lane map parses back from its value written as a string property. */
  lemma ParseLaneMapValue(m: LaneMap)
    ensures forall i :: 0 <= i < |LaneMapValue(m)| ==> 0 < LaneMapValue(m)[i] as int < 256
    ensures ParseLaneMap(Some(StrBytes(LaneMapValue(m)) + [0])) == Ok(m)
  {
    var v := LaneMapValue(m);
    assert forall i :: 0 <= i < |v| ==> 0 < v[i] as int < 256 by {
      assert forall i :: 0 <= i < 9 ==> v[i] == "lane_map_"[i];
    }
    AsStrOfText(v);
    var found := LaneMapOf(v);
    if found.Some? {
      LaneMapValuesDistinct(found.value, m);
    }
  }

  // ---------------------------------------------------------------------
  // Traffic mode

  /** `TrafficMode`. */
  datatype TrafficMode = SyncPulse | SyncEvent | BurstMode

  const AllTrafficModes: seq<TrafficMode> := [SyncPulse, SyncEvent, BurstMode]

  function TrafficModeValue(t: TrafficMode): string
  {
    match t
    case SyncPulse => "non_burst_sync_pulse"
    case SyncEvent => "non_burst_sync_event"
    case BurstMode => "burst_mode"
  }

  /** The mode flags a traffic mode adds. */
  function TrafficModeFlags(t: TrafficMode): seq<string>
  {
    match t
    case SyncPulse => ["MIPI_DSI_MODE_VIDEO_SYNC_PULSE"]
    case SyncEvent => []
    case BurstMode => ["MIPI_DSI_MODE_VIDEO_BURST"]
  }

  function TrafficModeOf(v: string): (r: Option<TrafficMode>)
    ensures r.Some? ==> TrafficModeValue(r.value) == v
    ensures r.None? ==> forall t :: TrafficModeValue(t) != v
  {
    if v == "non_burst_sync_pulse" then Some(SyncPulse)
    else if v == "non_burst_sync_event" then Some(SyncEvent)
    else if v == "burst_mode" then Some(BurstMode)
    else None
  }

  /** `TrafficMode.parse`: a string names the member (or is a ValueError);
      four bytes that are not a string are read as an index into the
      members; anything else is the downstream default, sync pulse.  An
      empty property fails the string test itself. */
  function ParseTrafficMode(p: seq<byte>): (r: Result<TrafficMode>)
    ensures |p| == 0 ==> r.Fail?
    ensures IsStr(p) == Ok(true) ==>
      (r.Ok? <==> TrafficModeOf(AsStr(p).value).Some?) && (r.Ok? ==> TrafficModeValue(r.value) == AsStr(p).value)
    ensures IsStr(p) == Ok(false) && |p| == 4 && Be32At(p, 0) < 3 ==> r == Ok(AllTrafficModes[Be32At(p, 0)])
    ensures IsStr(p) == Ok(false) && !(|p| == 4 && Be32At(p, 0) < 3) ==> r == Ok(SyncPulse)
  {
    var isStr :- IsStr(p);
    if isStr then
      match TrafficModeOf(AsStr(p).value)
      case None => Fail(BadValue("TrafficMode"))
      case Some(t) => Ok(t)
    else if |p| == 4 then
      var i := Be32At(p, 0);
      if i < |AllTrafficModes| then Ok(AllTrafficModes[i]) else Ok(SyncPulse)
    else Ok(SyncPulse)
  }

  /** The numeric form: the member's index as one big-endian word selects it. */
  lemma ParseTrafficModeIndex(i: nat)
    requires i < 3
    ensures Pow(256, 4) == 0x1_0000_0000
    ensures ParseTrafficMode(BeBytes(i, 4)) == Ok(AllTrafficModes[i])
  {
    SmallWord(i);
    var p := BeBytes(i, 4);
    LeadingNulNotStr(p);
    WholeWord(p);
  }

  lemma WholeWord(p: seq<byte>)
    requires |p| == 4
    ensures Be32At(p, 0) == BeValue(p)
  {
    assert p[0..4] == p;
  }

  /** A byte value as a big-endian word: three zero bytes, then the value. */
  lemma SmallWord(i: nat)
    requires i < 256
    ensures Pow(256, 4) == 0x1_0000_0000
    ensures BeBytes(i, 4) == [0, 0, 0, i]
  {
    assert Pow(256, 4) == 0x1_0000_0000;
    var q: seq<byte> := [0, 0, 0, i];
    assert BeValue(q) == i by {
      var z1: seq<byte> := [0];
      var z2: seq<byte> := [0, 0];
      var z3: seq<byte> := [0, 0, 0];
      assert z1[..0] == [];
      assert BeValue(z1) == 0;
      assert z2[..1] == z1;
      assert BeValue(z2) == 0;
      assert z3[..2] == z2;
      assert BeValue(z3) == 0;
      assert q[..3] == z3;
    }
    BeBytesOfValue(q);
  }

  /** A NUL before the last byte rules out a string. */
  lemma LeadingNulNotStr(p: seq<byte>)
    requires |p| >= 2 && p[0] == 0
    ensures IsStr(p) == Ok(false)
  {
    assert p[..|p| - 1][0] == 0;
  }

  /** The string form: each member parses back from its value. */
  lemma ParseTrafficModeValue(t: TrafficMode)
    ensures forall i :: 0 <= i < |TrafficModeValue(t)| ==> 0 < TrafficModeValue(t)[i] as int < 256
    ensures ParseTrafficMode(StrBytes(TrafficModeValue(t)) + [0]) == Ok(t)
  {
    AsStrOfText(TrafficModeValue(t));
  }

  // ---------------------------------------------------------------------
  // Panel ids

  const NodePrefixes: seq<string> := ["qcom,mdss_dsi_", "ss_dsi_panel_", "mot_"]

  const ShortIdSuffixes: seq<string> :=
    ["_panel", "_video", "_vid", "_cmd", "_fhd", "_hd", "_qhd", "_720p", "_1080p",
     "_wvga", "_fwvga", "_qvga", "_xga", "_wxga"]

  predicate EndsWith(s: string, t: string)
  {
    |t| <= |s| && s[|s| - |t|..] == t
  }

  /** `_remove_prefixes`: each prefix in turn is cut off if the text (as
      left by the earlier ones) starts with it. */
  function RemovePrefixes(text: string, prefixes: seq<string>): (r: string)
    ensures EndsWith(text, r)
  {
    if |prefixes| == 0 then text
    else
      var p := prefixes[0];
      var t := if StartsWith(text, p) then text[|p|..] else text;
      var r := RemovePrefixes(t, prefixes[1..]);
      EndsWithTrans(text, t, r);
      r
  }

  lemma EndsWithTrans(s: string, t: string, u: string)
    requires |t| <= |s| && t == s[|s| - |t|..]
    requires EndsWith(t, u)
    ensures EndsWith(s, u)
  {
    assert s[|s| - |u|..] == t[|t| - |u|..];
  }

  /** A text that starts with none of the prefixes is left alone. */
  lemma {:induction false} RemovePrefixesNone(text: string, prefixes: seq<string>)
    requires forall i :: 0 <= i < |prefixes| ==> !StartsWith(text, prefixes[i])
    ensures RemovePrefixes(text, prefixes) == text
    decreases |prefixes|
  {
    if |prefixes| > 0 {
      RemovePrefixesNone(text, prefixes[1..]);
    }
  }

  /** Each prefix is removed at most once: a doubled prefix loses one copy. */
  lemma RemovePrefixOnce(p: string, t: string)
    requires |p| > 0
    ensures RemovePrefixes(p + p + t, [p]) == p + t
  {
    assert (p + p + t)[..|p|] == p;
    assert (p + p + t)[|p|..] == p + t;
  }

  /** `_remove_before`: everything up to and including the first
      character of the first occurrence of `sub`. */
  function RemoveBefore(text: string, sub: string): (r: string)
    ensures EndsWith(text, r)
    ensures !Contains(text, sub) ==> r == text
  {
    var i := Text.Find(text, sub);
    if i < 0 then text
    else if i < |text| then text[i + 1..]
    else ""
  }

  /** Cutting at a character keeps exactly what follows its first occurrence. */
  lemma RemoveBeforeChar(text: string, c: char)
    requires c in text
    ensures var r := RemoveBefore(text, [c]);
      var k := |text| - |r|;
      0 < k && text[k - 1] == c && text == text[..k] + r && forall j :: 0 <= j < k - 1 ==> text[j] != c
  {
    FindCharIndex(text, c);
    var j :| 0 <= j < |text| && text[j] == c;
    var i := Text.Find(text, [c]);
    assert text == text[..i + 1] + text[i + 1..];
  }

  /** `_replace_all(text, *args)`: every occurrence of each pattern in
      turn is deleted. */
  function RemoveAll(text: string, pats: seq<string>): (r: string)
    requires forall i :: 0 <= i < |pats| ==> |pats[i]| > 0
    ensures |r| <= |text|
    decreases |pats|
  {
    if |pats| == 0 then text
    else
      ReplaceShrinks(text, pats[0]);
      RemoveAll(ReplaceAll(text, pats[0], ""), pats[1..])
  }

  lemma {:induction false} JoinEmptyShorter(parts: seq<string>, sep: string)
    ensures |Join(parts, "")| <= |Join(parts, sep)|
    decreases |parts|
  {
    if |parts| > 1 {
      JoinEmptyShorter(parts[1..], sep);
    }
  }

  lemma ReplaceShrinks(s: string, pat: string)
    requires |pat| > 0
    ensures |ReplaceAll(s, pat, "")| <= |s|
  {
    JoinEmptyShorter(Split(s, pat), pat);
  }

  /** A text containing none of the patterns comes back unchanged. */
  lemma {:induction false} RemoveAllAbsent(text: string, pats: seq<string>)
    requires forall i :: 0 <= i < |pats| ==> |pats[i]| > 0 && !Contains(text, pats[i])
    ensures RemoveAll(text, pats) == text
    decreases |pats|
  {
    if |pats| > 0 {
      ReplaceAbsent(text, pats[0], "");
      RemoveAllAbsent(text, pats[1..]);
    }
  }

  /** `Panel.id`: the node name without its vendor prefixes, lower-cased,
      without anything up to the first comma. */
  function PanelId(nodeName: string): (r: string)
    ensures EndsWith(Lower(RemovePrefixes(nodeName, NodePrefixes)), r)
  {
    RemoveBefore(Lower(RemovePrefixes(nodeName, NodePrefixes)), ",")
  }

  /** `Panel.short_id`: the id with the mode and resolution words removed. */
  function ShortId(id: string): (r: string)
    ensures |r| <= |id|
  {
    assert forall i :: 0 <= i < |ShortIdSuffixes| ==> |ShortIdSuffixes[i]| > 0;
    RemoveAll(id, ShortIdSuffixes)
  }

  /** An id without any of the words is its own short id. */
  lemma ShortIdOfPlainId(id: string)
    requires forall i :: 0 <= i < |ShortIdSuffixes| ==> !Contains(id, ShortIdSuffixes[i])
    ensures ShortId(id) == id
  {
    RemoveAllAbsent(id, ShortIdSuffixes);
  }
}
