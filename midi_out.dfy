/**
 * The host-side MIDI output port the sender scripts write to.  The port
 * library itself is foreign code: here a port either accepts a message
 * (it is delivered) or raises (nothing is delivered).  Which messages it
 * accepts is fixed when the port is created, so a caller can describe,
 * say, a port whose buffer refuses messages longer than some bound.
 */
module MidiOut {
  import opened Common

  class Port {
    /** Whether a `send` of this message returns normally. */
    const accepts: seq<Byte> -> bool
    /** Every message delivered so far, in order. */
    var sent: seq<seq<Byte>>
    var isOpen: bool

    constructor (accepts: seq<Byte> -> bool)
      ensures this.accepts == accepts
      ensures sent == [] && !isOpen
    {
      this.accepts := accepts;
      sent := [];
      isOpen := false;
    }

    method Open()
      modifies this
      ensures isOpen && sent == old(sent)
    {
      isOpen := true;
    }

    method Close()
      modifies this
      ensures !isOpen && sent == old(sent)
    {
      isOpen := false;
    }

    /** `ok` is false exactly when the port library raises. */
    method Send(msg: seq<Byte>) returns (ok: bool)
      modifies this
      ensures ok == accepts(msg)
      ensures sent == old(sent) + (if ok then [msg] else [])
      ensures isOpen == old(isOpen)
    {
      ok := accepts(msg);
      if ok {
        sent := sent + [msg];
      }
    }
  }

  /** The longest prefix of `msgs` that the port accepts. */
  function AcceptedPrefix(accepts: seq<Byte> -> bool, msgs: seq<seq<Byte>>): (r: seq<seq<Byte>>)
    ensures |r| <= |msgs|
  {
    if |msgs| == 0 || !accepts(msgs[0]) then []
    else [msgs[0]] + AcceptedPrefix(accepts, msgs[1..])
  }

  /** The accepted prefix is a prefix, all accepted, stopped by the first refusal. */
  lemma {:induction false} AcceptedPrefixIsLongest(accepts: seq<Byte> -> bool, msgs: seq<seq<Byte>>)
    ensures var r := AcceptedPrefix(accepts, msgs);
      r == msgs[..|r|] && AllAccepted(accepts, r) && (|r| < |msgs| ==> !accepts(msgs[|r|]))
  {
    if |msgs| > 0 && accepts(msgs[0]) {
      AcceptedPrefixIsLongest(accepts, msgs[1..]);
      var t := AcceptedPrefix(accepts, msgs[1..]);
      assert [msgs[0]] + msgs[1..][..|t|] == msgs[..|t| + 1];
    }
  }

  predicate AllAccepted(accepts: seq<Byte> -> bool, msgs: seq<seq<Byte>>)
  {
    forall k :: 0 <= k < |msgs| ==> accepts(msgs[k])
  }

  lemma AcceptedPrefixAll(accepts: seq<Byte> -> bool, msgs: seq<seq<Byte>>)
    ensures AcceptedPrefix(accepts, msgs) == msgs <==> AllAccepted(accepts, msgs)
  {
    AcceptedPrefixIsLongest(accepts, msgs);
  }

  /** Sending an accepted prefix message by message, then the rest. */
  lemma {:induction false} AcceptedPrefixSplit(accepts: seq<Byte> -> bool, msgs: seq<seq<Byte>>, k: nat)
    requires k <= |msgs| && AllAccepted(accepts, msgs[..k])
    ensures AcceptedPrefix(accepts, msgs) == msgs[..k] + AcceptedPrefix(accepts, msgs[k..])
    decreases k
  {
    if k > 0 {
      assert accepts(msgs[..k][0]);
      assert msgs[1..][..k - 1] == msgs[1..k];
      AcceptedPrefixSplit(accepts, msgs[1..], k - 1);
      assert msgs[1..][k - 1..] == msgs[k..];
      assert [msgs[0]] + msgs[1..k] == msgs[..k];
    }
  }

  /** Sending stops at the first refusal: what was delivered is the accepted prefix. */
  lemma AcceptedPrefixStops(accepts: seq<Byte> -> bool, msgs: seq<seq<Byte>>, k: nat)
    requires k <= |msgs| && AllAccepted(accepts, msgs[..k])
    requires k < |msgs| ==> !accepts(msgs[k])
    ensures AcceptedPrefix(accepts, msgs) == msgs[..k]
    ensures AllAccepted(accepts, msgs) <==> k == |msgs|
  {
    AcceptedPrefixSplit(accepts, msgs, k);
    if k == |msgs| {
      assert msgs[..k] == msgs;
      assert msgs[k..] == [];
    } else {
      assert msgs[k..][0] == msgs[k];
    }
    assert msgs[..k] + [] == msgs[..k];
  }

  /** One more accepted message extends an all-accepted prefix. */
  lemma AcceptedStep(accepts: seq<Byte> -> bool, msgs: seq<seq<Byte>>, k: nat)
    requires k < |msgs| && AllAccepted(accepts, msgs[..k]) && accepts(msgs[k])
    ensures msgs[..k + 1] == msgs[..k] + [msgs[k]]
    ensures AllAccepted(accepts, msgs[..k + 1])
  {
    assert msgs[..k + 1] == msgs[..k] + [msgs[k]];
  }
}
