/** Negotiated packet layouts and sizes (crates/irtt-proto/src/layout.rs). */
module Layout {
  import opened Prelude
  import opened ProtoErrors
  import opened Params

  const HEADER_SIZE := 4
  const HMAC_SIZE := 16
  const TOKEN_SIZE := 8
  const SEQ_SIZE := 4
  const TIMESTAMP_SIZE := 8

  /** One optional reply field: present or not, and how wide it is on the wire. */
  datatype Slot = Slot(name: string, width: nat, present: bool) {
    function Size(): nat {
      if present then width else 0
    }
  }

  function SlotsSize(slots: seq<Slot>): nat {
    if slots == [] then 0 else slots[0].Size() + SlotsSize(slots[1..])
  }

  /** The echo layout; every echo carries a token and a sequence number. */
  datatype EchoLayout = EchoLayout(
    hmac: bool,
    recvCount: bool,
    recvWindow: bool,
    recvWall: bool,
    recvMono: bool,
    midpointWall: bool,
    midpointMono: bool,
    sendWall: bool,
    sendMono: bool)
  {
    /** An echo reply's fields in wire order; the first two are always there. */
    function Slots(): (slots: seq<Slot>)
      ensures |slots| == 10
    {
      [ Slot("token", TOKEN_SIZE, true),
        Slot("sequence", SEQ_SIZE, true),
        Slot("recv_count", 4, recvCount),
        Slot("recv_window", 8, recvWindow),
        Slot("recv_wall", 8, recvWall),
        Slot("recv_mono", 8, recvMono),
        Slot("midpoint_wall", 8, midpointWall),
        Slot("midpoint_mono", 8, midpointMono),
        Slot("send_wall", 8, sendWall),
        Slot("send_mono", 8, sendMono)]
    }

    function BodyOffset(): nat {
      HEADER_SIZE + if hmac then HMAC_SIZE else 0
    }

    function HeaderLen(): nat {
      BodyOffset() + TOKEN_SIZE + SEQ_SIZE
      + (if recvCount then 4 else 0) + (if recvWindow then 8 else 0)
      + TimestampCount() * TIMESTAMP_SIZE
    }

    function TimestampCount(): nat {
      (if recvWall then 1 else 0) + (if recvMono then 1 else 0)
      + (if midpointWall then 1 else 0) + (if midpointMono then 1 else 0)
      + (if sendWall then 1 else 0) + (if sendMono then 1 else 0)
    }
  }

  function Echo(hmac: bool, p: Params): EchoLayout {
    var wall, mono := p.clock.HasWall(), p.clock.HasMono();
    var receives := p.stampAt.AtReceive? || p.stampAt.AtBoth?;
    var sends := p.stampAt.AtSend? || p.stampAt.AtBoth?;
    EchoLayout(
      hmac,
      p.receivedStats.HasCount(),
      p.receivedStats.HasWindow(),
      receives && wall,
      receives && mono,
      p.stampAt.AtMidpoint? && wall,
      p.stampAt.AtMidpoint? && mono,
      sends && wall,
      sends && mono)
  }

  lemma {:induction false} SlotsSizeFrom(slots: seq<Slot>, k: nat)
    requires k <= |slots|
    ensures SlotsSize(slots[k..])
         == if k == |slots| then 0 else slots[k].Size() + SlotsSize(slots[k + 1..])
  {
    if k < |slots| {
      assert slots[k..][1..] == slots[k + 1..];
    }
  }

  /** The field block is the header and the slots. */
  lemma HeaderIsSlots(layout: EchoLayout)
    ensures layout.HeaderLen() == layout.BodyOffset() + SlotsSize(layout.Slots())
  {
    TenSizes(layout.Slots());
    hide SlotsSize;
  }

  lemma TenSizes(s: seq<Slot>)
    requires |s| == 10
    ensures SlotsSize(s) == s[0].Size() + s[1].Size() + s[2].Size() + s[3].Size() + s[4].Size()
                            + s[5].Size() + s[6].Size() + s[7].Size() + s[8].Size() + s[9].Size()
  {
    hide SlotsSize, Slot.Size;
    assert s[0..] == s;
    SlotsSizeFrom(s, 0);
    SlotsSizeFrom(s, 1);
    SlotsSizeFrom(s, 2);
    SlotsSizeFrom(s, 3);
    SlotsSizeFrom(s, 4);
    SlotsSizeFrom(s, 5);
    SlotsSizeFrom(s, 6);
    SlotsSizeFrom(s, 7);
    SlotsSizeFrom(s, 8);
    SlotsSizeFrom(s, 9);
    SlotsSizeFrom(s, 10);
  }

  /** `max(field block, requested length)`, a non-positive length asking for nothing more. A
      64-bit target can represent every positive length. */
  function EchoPacketLen(hmac: bool, p: Params): nat {
    Max(Echo(hmac, p).HeaderLen(), Max(p.length, 0))
  }
}
