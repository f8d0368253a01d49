/** Input events: the kernel's virtio-input queue, which packs each event
    into one 64-bit word (kernel/src/drivers/input/mod.rs), and the user
    library's decoding of that word (user/src/input.rs). */
module Input {
  import opened Wrappers

  /** An input event as the device reports it and as `InputEvent` holds it:
      a 16-bit type, a 16-bit code and a 32-bit value. */
  datatype InputEvent = InputEvent(eventType: bv16, code: bv16, value: bv32)

  /** `handle_irq`'s word: type << 48 | code << 32 | value. */
  function Pack(e: InputEvent): bv64
  {
    (e.eventType as bv64 << 48) | (e.code as bv64 << 32) | (e.value as bv64)
  }

  /** `From<u64> for InputEvent`: the low 32 bits are the value, then 16 bits
      of code, then 16 bits of type, each taken by a truncating cast after a
      right shift. */
  function Unpack(v: bv64): InputEvent
  {
    var value := (v & 0xFFFF_FFFF) as bv32;
    var v1 := v >> 32;
    var code := (v1 & 0xFFFF) as bv16;
    var v2 := v1 >> 16;
    InputEvent((v2 & 0xFFFF) as bv16, code, value)
  }

  /** Decoding the kernel's word gives back the event. */
  lemma UnpackPack(e: InputEvent)
    ensures Unpack(Pack(e)) == e
  {
    LowBits(e);
    MiddleBits(e);
    HighBits(e);
  }

  lemma LowBits(e: InputEvent)
    ensures Pack(e) & 0xFFFF_FFFF == e.value as bv64
  {
  }

  lemma MiddleBits(e: InputEvent)
    ensures (Pack(e) >> 32) & 0xFFFF == e.code as bv64
  {
  }

  lemma HighBits(e: InputEvent)
    ensures ((Pack(e) >> 32) >> 16) & 0xFFFF == e.eventType as bv64
  {
  }

  /** Every word is the packing of the event it decodes to, so no two
      events share a word. */
  lemma PackUnpack(v: bv64)
    ensures Pack(Unpack(v)) == v
  {
    var e := Unpack(v);
    assert e.value as bv64 == v & 0xFFFF_FFFF;
    assert e.code as bv64 == (v >> 32) & 0xFFFF;
    assert e.eventType as bv64 == v >> 48;
  }

  /** The field positions: value in bits 0-31, code in bits 32-47, type in
      bits 48-63. */
  lemma UnpackFields(v: bv64)
    ensures Unpack(v).value as bv64 == v % 0x1_0000_0000
    ensures Unpack(v).code as bv64 == (v / 0x1_0000_0000) % 0x1_0000
    ensures Unpack(v).eventType as bv64 == v / 0x1_0000_0000_0000
  {
  }

  /** `event_get`: a raw 0 from the system call means no event. */
  function EventGet(raw: bv64): (r: Option<InputEvent>)
    ensures r.Some? ==> Pack(r.value) == raw
  {
    PackUnpack(raw);
    if raw == 0 then None else Some(Unpack(raw))
  }

  /** An event read back through `event_get` is the event the kernel
      queued, except the all-zero event, which reads as no event. */
  lemma EventGetPacked(e: InputEvent)
    ensures EventGet(Pack(e)).None? <==> e == InputEvent(0, 0, 0)
    ensures e != InputEvent(0, 0, 0) ==> EventGet(Pack(e)) == Some(e)
  {
    UnpackPack(e);
    if Pack(e) == 0 {
      assert Unpack(0) == InputEvent(0, 0, 0);
    }
  }

  /** The words of a run of events, in order. */
  function Packed(es: seq<InputEvent>): (ws: seq<bv64>)
    ensures |ws| == |es|
    ensures forall i :: 0 <= i < |es| ==> ws[i] == Pack(es[i])
  {
    if es == [] then [] else [Pack(es[0])] + Packed(es[1..])
  }

  /** The events of a run of words, in order. */
  function Unpacked(ws: seq<bv64>): (es: seq<InputEvent>)
    ensures |es| == |ws|
  {
    if ws == [] then [] else [Unpack(ws[0])] + Unpacked(ws[1..])
  }

  /** A queue of packed events decodes to the events themselves. */
  lemma {:induction false} UnpackedPacked(es: seq<InputEvent>)
    ensures Unpacked(Packed(es)) == es
  {
    if es != [] {
      UnpackPack(es[0]);
      UnpackedPacked(es[1..]);
      assert Packed(es)[1..] == Packed(es[1..]);
    }
  }

  /** `VirtIOInputWrapper`: the events the device still holds, the queue
      `handle_irq` fills, and how often the condition variable was
      signalled. */
  class InputDevice {
    var pending: seq<InputEvent>
    var events: seq<bv64>
    var signals: nat

    /** `VirtIOInputWrapper::new`: an empty queue. */
    constructor (devicePending: seq<InputEvent>)
      ensures pending == devicePending && events == [] && signals == 0
    {
      pending := devicePending;
      events := [];
      signals := 0;
    }

    /** `handle_irq`: every pending event is packed and appended in arrival
        order, and the waiters are signalled once, only when at least one
        event arrived. */
    method HandleIrq()
      modifies this
      ensures pending == []
      ensures events == old(events) + Packed(old(pending))
      ensures signals == old(signals) + (if old(pending) == [] then 0 else 1)
    {
      var count := 0;
      while pending != []
        invariant count <= |old(pending)|
        invariant pending == old(pending)[count..]
        invariant events == old(events) + Packed(old(pending)[..count])
        invariant signals == old(signals)
        decreases |pending|
      {
        var e := pending[0];
        pending := pending[1..];
        events := events + [Pack(e)];
        count := count + 1;
        assert old(pending)[..count] == old(pending)[..count - 1] + [e];
      }
      assert old(pending)[..count] == old(pending);
      if count > 0 {
        signals := signals + 1;
      }
    }

    /** `read_event`: the oldest queued word; with an empty queue the caller
        waits on the condition variable (None here) and nothing changes. */
    method ReadEvent() returns (r: Option<bv64>)
      modifies this`events
      ensures old(events) == [] ==> r.None? && events == []
      ensures old(events) != [] ==> r == Some(old(events)[0]) && events == old(events)[1..]
    {
      if events == [] {
        r := None;
      } else {
        r := Some(events[0]);
        events := events[1..];
      }
    }

    /** `is_empty`. */
    function IsEmpty(): (b: bool)
      reads this
      ensures b <==> |events| == 0
    {
      events == []
    }
  }
}
