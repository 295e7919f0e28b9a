/** The little-kernel (LK) bootloader output: each command becomes the
    raw DSI packet LK's DMA engine sends, and the lane and command-state
    settings become numbers in C structures. */
module Lk {
  import opened Wrappers
  import opened Bytes
  import opened Text
  import opened Wrap
  import opened Mipi
  import opened Panel

  // ---------------------------------------------------------------------
  // Bit operations on unbounded naturals

  /** Python's `a | b` on non-negative integers. */
  function Or(a: nat, b: nat): (r: nat)
    ensures r >= a && r >= b
    decreases a + b
  {
    if a == 0 then b
    else if b == 0 then a
    else 2 * Or(a / 2, b / 2) + (if a % 2 == 1 || b % 2 == 1 then 1 else 0)
  }

  /** Or-ing a value below `2^k` into `b << k` is addition: the bits do
      not overlap. */
  lemma {:induction false} OrShift(a: nat, b: nat, k: nat)
    requires a < Pow(2, k)
    ensures Or(a, b * Pow(2, k)) == a + b * Pow(2, k)
    decreases k
  {
    if k > 0 && a != 0 && b != 0 {
      var m := Pow(2, k - 1);
      assert Pow(2, k) == 2 * m;
      assert b * Pow(2, k) == 2 * (b * m);
      assert (b * Pow(2, k)) / 2 == b * m && (b * Pow(2, k)) % 2 == 0;
      OrShift(a / 2, b, k - 1);
    }
  }

  /** `b << k` for a flag: the bit is set exactly when the flag is. */
  function Bit(flag: bool): nat
  {
    if flag then 1 else 0
  }

  // ---------------------------------------------------------------------
  // Packets

  /** A DSI data type value fits in the six low bits of the header byte. */
  lemma ValueBelow64(t: Transaction)
    ensures Entry(t).value < 64
  {
  }

  /** The header bytes of a short packet: the payload padded with zeros
      to two bytes (`next(itr, 0)` twice). */
  function ShortData(p: seq<byte>): (r: seq<byte>)
    requires |p| <= 2
    ensures |r| == 2 && r[..|p|] == p
    ensures forall k :: |p| <= k < 2 ==> r[k] == 0
  {
    (if |p| > 0 then [p[0]] else [0]) + (if |p| > 1 then [p[1]] else [0])
  }

  /** Bytes of 0xff that bring a packet of `n` bytes to a multiple of 4. */
  function PadLength(n: nat): (r: nat)
    ensures r < 4 && (n + r) % 4 == 0
  {
    if n % 4 != 0 then 4 - n % 4 else 0
  }

  /** The byte appended to a `bytearray`: values outside 0..255 are a
      ValueError. */
  function ToByte(v: nat, what: string): (r: Result<byte>)
    ensures r.Ok? <==> v < 256
    ensures r.Ok? ==> r.value == v
  {
    if v < 256 then Ok(v) else Fail(BadValue(what))
  }

  /** The first two bytes: the little-endian word count of a long packet
      (`int.to_bytes` overflows past 16 bits), or the zero-padded data of
      a short one, which may hold at most two bytes. */
  function Head(p: seq<byte>, long: bool): (r: Result<seq<byte>>)
    ensures r.Ok? ==> |r.value| == 2
    ensures long ==> (r.Ok? <==> |p| < 0x1_0000)
    ensures long && r.Ok? ==> LeValue(r.value) == |p|
    ensures !long ==> (r.Ok? <==> |p| <= 2)
    ensures !long && !r.Ok? ==> r == Fail(Assertion("Payload too long"))
    ensures !long && r.Ok? ==> r.value[..|p|] == p
  {
    if long then
      if |p| < 0x1_0000 then
        assert Pow(256, 2) == 0x1_0000;
        Ok(LeBytes(|p|, 2))
      else Fail(BadValue("word count"))
    else if |p| <= 2 then Ok(ShortData(p))
    else Fail(Assertion("Payload too long"))
  }

  /** The bytes after the header: none for a short packet; for a long one
      the payload and enough 0xff to reach a multiple of four bytes. */
  function Body(header: seq<byte>, p: seq<byte>, long: bool): (r: seq<byte>)
    ensures !long ==> r == header
    ensures long ==> |r| % 4 == 0 && |header| + |p| <= |r| < |header| + |p| + 4
    ensures long ==> r[..|header|] == header && r[|header|..|header| + |p|] == p
    ensures long ==> forall k :: |header| + |p| <= k < |r| ==> r[k] == 0xff
  {
    if long then
      var body := header + p;
      var r := body + Fill(PadLength(|body|));
      assert r[..|body|] == body;
      r
    else header
  }

  /** `n` bytes of 0xff. */
  function Fill(n: nat): (r: seq<byte>)
    ensures |r| == n && forall k :: 0 <= k < n ==> r[k] == 0xff
  {
    if n == 0 then [] else [0xff] + Fill(n - 1)
  }

  /** The data type byte: the type value with the virtual channel in bits 6-7. */
  function DataTypeByte(c: Command): nat
  {
    Or(Entry(c.kind).value, c.vc * 64)
  }

  /** The flag byte: ack in bit 5, long in bit 6, last in bit 7. */
  function FlagsByte(c: Command): nat
  {
    Or(Or(c.ack * 32, Bit(IsLong(c.kind)) * 64), c.last * 128)
  }

  /** The packet `generate_commands` writes for one command: two bytes of
      word count or short data, the data type byte and the flag byte, then
      for long packets the payload padded with 0xff. */
  function Packet(c: Command): (r: Result<seq<byte>>)
    ensures !IsLong(c.kind) && |c.payload| > 2 ==> r == Fail(Assertion("Payload too long"))
    ensures r.Ok? ==> |r.value| >= 4 && |r.value| % 4 == 0
    ensures r.Ok? ==> r.value[2] == DataTypeByte(c) && r.value[3] == FlagsByte(c)
    ensures r.Ok? && !IsLong(c.kind) ==> |r.value| == 4 && r.value[..|c.payload|] == c.payload
    ensures r.Ok? && IsLong(c.kind) ==>
      4 + |c.payload| <= |r.value| && LeValue(r.value[..2]) == |c.payload| && r.value[4..4 + |c.payload|] == c.payload
      && forall k :: 4 + |c.payload| <= k < |r.value| ==> r.value[k] == 0xff
  {
    var long := IsLong(c.kind);
    var head :- Head(c.payload, long);
    var b3 :- ToByte(DataTypeByte(c), "data type");
    var b4 :- ToByte(FlagsByte(c), "flags");
    var header := head + [b3, b4];
    var r := Body(header, c.payload, long);
    assert r[..4] == header && header[..2] == head;
    Ok(r)
  }

  /** A packet is built only for a virtual channel below 4: higher ones
      overflow the data type byte. */
  lemma PacketChannel(c: Command)
    ensures Packet(c).Ok? ==> c.vc < 4
  {
    if Packet(c).Ok? {
      ValueBelow64(c.kind);
      assert Pow(2, 6) == 64;
      OrShift(Entry(c.kind).value, c.vc, 6);
    }
  }

  /** The fields of a packet header as LK's DSI driver reads them back. */
  datatype Header = Header(dataType: nat, vc: nat, ack: nat, long: nat, last: nat)

  function ReadHeader(b: seq<byte>): Header
    requires |b| >= 4
  {
    Header(b[2] % 64, b[2] / 64, b[3] / 32 % 2, b[3] / 64 % 2, b[3] / 128)
  }

  /** The data type byte splits back into type and channel. */
  lemma DataTypeFields(c: Command)
    requires c.vc < 4
    ensures DataTypeByte(c) < 256
    ensures DataTypeByte(c) % 64 == Entry(c.kind).value && DataTypeByte(c) / 64 == c.vc
  {
    ValueBelow64(c.kind);
    ChannelBits(Entry(c.kind).value, c.vc);
  }

  lemma ChannelBits(v: nat, vc: nat)
    requires v < 64 && vc < 4
    ensures var b := Or(v, vc * 64); b < 256 && b % 64 == v && b / 64 == vc
  {
    OrBelow(v, vc, 6, 64);
    DivMod64(v, vc);
  }

  lemma DivMod64(v: nat, q: nat)
    requires v < 64
    ensures (v + q * 64) % 64 == v && (v + q * 64) / 64 == q
  {
  }

  /** `OrShift` with the power of two given by value. */
  lemma OrBelow(a: nat, b: nat, k: nat, p: nat)
    requires p == Pow(2, k) && a < p
    ensures Or(a, b * p) == a + b * p
  {
    OrShift(a, b, k);
  }

  /** The flag byte splits back into its three flags. */
  lemma FlagsFields(c: Command)
    requires c.ack <= 1 && c.last <= 1
    ensures FlagsByte(c) < 256
    ensures FlagsByte(c) / 32 % 2 == c.ack && FlagsByte(c) / 64 % 2 == Bit(IsLong(c.kind))
         && FlagsByte(c) / 128 == c.last
  {
    FlagsOr(c.ack, Bit(IsLong(c.kind)), c.last);
  }

  lemma FlagsOr(ack: nat, long: nat, last: nat)
    requires ack <= 1 && long <= 1 && last <= 1
    ensures var v := Or(Or(ack * 32, long * 64), last * 128);
      v < 256 && v / 32 % 2 == ack && v / 64 % 2 == long && v / 128 == last
  {
    var low := Or(ack * 32, long * 64);
    FlagsLow(ack, long);
    Pow2Facts();
    OrBelow(low, last, 7, 128);
    FlagBits(ack, long, last);
  }

  /** Ack and long flags occupy bits 5 and 6 only. */
  lemma FlagsLow(ack: nat, long: nat)
    requires ack <= 1 && long <= 1
    ensures Or(ack * 32, long * 64) == ack * 32 + long * 64 < 128
  {
    Pow2Facts();
    var x := if ack == 0 then 0 else 32;
    assert ack * 32 == x;
    OrBelow(x, long, 6, 64);
  }

  lemma Pow2Facts()
    ensures Pow(2, 6) == 64 && Pow(2, 7) == 128
  {
    assert Pow(2, 6) == 64;
  }

  lemma FlagBits(a: nat, l: nat, t: nat)
    requires a <= 1 && l <= 1 && t <= 1
    ensures var v := a * 32 + l * 64 + t * 128;
      v < 256 && v / 32 % 2 == a && v / 64 % 2 == l && v / 128 == t
  {
    assert a == 0 || a == 1;
    assert l == 0 || l == 1;
    assert t == 0 || t == 1;
  }

  /** A packet header carries the command's fields unchanged when they
      fit their bit widths (virtual channel 0-3, flags 0 or 1). */
  lemma PacketHeader(c: Command)
    requires c.vc < 4 && c.ack <= 1 && c.last <= 1
    requires IsLong(c.kind) ==> |c.payload| < 0x1_0000
    requires !IsLong(c.kind) ==> |c.payload| <= 2
    ensures Packet(c).Ok?
    ensures var h := ReadHeader(Packet(c).value);
      h.dataType == Entry(c.kind).value && h.vc == c.vc && h.ack == c.ack
      && h.long == Bit(IsLong(c.kind)) && h.last == c.last
  {
    DataTypeFields(c);
    FlagsFields(c);
  }

  /** A virtual channel of 4 or more does not fit the header byte. */
  lemma WideChannelFails(c: Command)
    requires c.vc >= 4
    ensures Packet(c).Fail?
  {
    PacketChannel(c);
  }

  /** A decoded GENERIC_SHORT_WRITE_2_PARAM keeps three payload bytes,
      one more than a short packet holds: LK generation stops there. */
  lemma ClippedShortWriteFails(last: byte, vc: byte, ack: byte, wait: byte, p: seq<byte>)
    requires |p| >= 3
    ensures Packet(Command(GenericShortWrite2Param, last, vc, ack, wait, Clip(GenericShortWrite2Param, p)))
         == Fail(Assertion("Payload too long"))
  {
    assert !IsLong(GenericShortWrite2Param);
  }

  /** Every packet of a sequence, or the first failure. */
  function Packets(cmds: seq<Command>): (r: Result<seq<seq<byte>>>)
    ensures r.Ok? <==> forall i :: 0 <= i < |cmds| ==> Packet(cmds[i]).Ok?
    ensures r.Ok? ==> |r.value| == |cmds| && forall i :: 0 <= i < |cmds| ==> r.value[i] == Packet(cmds[i]).value
  {
    if |cmds| == 0 then Ok([])
    else
      var b :- Packet(cmds[0]);
      match Packets(cmds[1..])
      case Fail(e) =>
        assert exists i :: 0 <= i < |cmds[1..]| && !Packet(cmds[1..][i]).Ok?;
        Fail(e)
      case Ok(rest) =>
        assert forall i :: 1 <= i < |cmds| ==> cmds[i] == cmds[1..][i - 1];
        Ok([b] + rest)
  }

  // ---------------------------------------------------------------------
  // C source

  /** Each byte as `0x..`, two hex digits. */
  function HexBytes(b: seq<byte>): (r: seq<string>)
    ensures |r| == |b|
    ensures forall k :: 0 <= k < |b| ==> |r[k]| == 4 && r[k][..2] == "0x" && DigitsValue(r[k][2..], 16) == b[k]
  {
    forall k | 0 <= k < |b|
      ensures |HexFill(b[k], 1)| == 4 && DigitsValue(HexFill(b[k], 1)[2..], 16) == b[k]
    {
      HexFillWidth(b[k], 1);
      HexFillValue(b[k], 1);
    }
    seq(|b|, k requires 0 <= k < |b| => HexFill(b[k], 1))
  }

  function ArrayName(id: string, cmd: string, i: nat): string
  {
    id + "_" + cmd + "_cmd_" + Dec(i)
  }

  /** The `static char` array of one packet, wrapped at 54 columns. */
  function ArrayDecl(name: string, b: seq<byte>): string
  {
    "static char " + name + "[] = {\n" + JoinWrap("\t", ",", "", HexBytes(b), -1, 54) + "\n};\n"
  }

  /** The table row that sends one packet and waits afterwards. */
  function StructLine(name: string, wait: nat): string
  {
    "\t{ sizeof(" + name + "), " + name + ", " + Dec(wait) + " },\n"
  }

  /** The packet arrays of a sequence, in order. */
  function Arrays(id: string, cmd: string, packets: seq<seq<byte>>): seq<string>
  {
    seq(|packets|, i requires 0 <= i < |packets| => ArrayDecl(ArrayName(id, cmd, i), packets[i]))
  }

  /** The table rows of a sequence, in order. */
  function Rows(id: string, cmd: string, cmds: seq<Command>): seq<string>
  {
    seq(|cmds|, i requires 0 <= i < |cmds| => StructLine(ArrayName(id, cmd, i), cmds[i].wait))
  }

  function TableHead(id: string, cmd: string): string
  {
    "\nstatic struct mipi_dsi_cmd " + id + "_" + cmd + "_command[] = {\n"
  }

  /** `lk.generate_commands`: the packet arrays of a sequence followed by
      the table listing them with their waits; the first command without a
      packet stops generation. */
  function GenerateCommands(id: string, cmd: string, cmds: seq<Command>): (r: Result<string>)
    ensures r.Ok? <==> forall i :: 0 <= i < |cmds| ==> Packet(cmds[i]).Ok?
  {
    var packets :- Packets(cmds);
    Ok(Concat(Arrays(id, cmd, packets)) + TableHead(id, cmd) + Concat(Rows(id, cmd, cmds)) + "};")
  }

  /** Every command of the sequence has its packet array and its table
      row, carrying its wait, in the generated source. */
  lemma CommandsListed(id: string, cmd: string, cmds: seq<Command>, i: nat)
    requires i < |cmds|
    requires GenerateCommands(id, cmd, cmds).Ok?
    ensures Contains(GenerateCommands(id, cmd, cmds).value, ArrayDecl(ArrayName(id, cmd, i), Packet(cmds[i]).value))
    ensures Contains(GenerateCommands(id, cmd, cmds).value, StructLine(ArrayName(id, cmd, i), cmds[i].wait))
  {
    var packets := Packets(cmds).value;
    var arrays := Arrays(id, cmd, packets);
    var rows := Rows(id, cmd, cmds);
    assert GenerateCommands(id, cmd, cmds).value == Concat(arrays) + TableHead(id, cmd) + Concat(rows) + "};";
    assert arrays[i] == ArrayDecl(ArrayName(id, cmd, i), Packet(cmds[i]).value);
    var rest := TableHead(id, cmd) + Concat(rows) + "};";
    ConcatContains(arrays, i);
    ContainsShift("", Concat(arrays), rest, arrays[i]);
    Regroup(Concat(arrays), TableHead(id, cmd), Concat(rows), "};");
    ConcatContains(rows, i);
    ContainsShift(Concat(arrays) + TableHead(id, cmd), Concat(rows), "};", rows[i]);
  }

  /** Kept apart from `CommandsListed`: stated there, this regrouping of
      long strings costs the solver more than the whole lemma may. */
  lemma Regroup(a: string, b: string, c: string, d: string)
    ensures "" + a + (b + c + d) == a + b + c + d
  {
    assert "" + a == a;
  }

  /** Array names are distinct within a sequence. */
  lemma ArrayNamesDistinct(id: string, cmd: string, i: nat, j: nat)
    requires i != j
    ensures ArrayName(id, cmd, i) != ArrayName(id, cmd, j)
  {
    var p := id + "_" + cmd + "_cmd_";
    assert ArrayName(id, cmd, i)[|p|..] == Dec(i);
    assert ArrayName(id, cmd, j)[|p|..] == Dec(j);
  }

  // ---------------------------------------------------------------------
  // Settings

  /** `.oncommand_state` / `.offcommand_state`: 1 for high-speed mode. */
  function CommandState(s: State): (r: nat)
    ensures r <= 1 && (r == 1 <==> s == HsMode)
  {
    if s == HsMode then 1 else 0
  }

  /** `.laneN_state`: lane `n` is used when there are more than `n` lanes. */
  function LaneState(lanes: nat, n: nat): (r: nat)
    ensures r <= 1
  {
    if lanes > n then 1 else 0
  }

  /** The enabled lanes are the first `min(lanes, 4)`. */
  lemma LaneStatesCount(lanes: nat)
    ensures LaneState(lanes, 0) + LaneState(lanes, 1) + LaneState(lanes, 2) + LaneState(lanes, 3)
         == (if lanes < 4 then lanes else 4)
    ensures forall n, m :: n <= m && LaneState(lanes, m) == 1 ==> LaneState(lanes, n) == 1
  {
  }

  /** `.force_clk_lane_hs`: the clock lane stays in high-speed mode unless
      the panel allows a non-continuous clock. */
  function ForceClockLaneHs(flags: seq<string>): (r: nat)
    ensures r <= 1
    ensures r == 0 <==> "MIPI_DSI_CLOCK_NON_CONTINUOUS" in flags
  {
    if "MIPI_DSI_CLOCK_NON_CONTINUOUS" in flags then 0 else 1
  }
}
