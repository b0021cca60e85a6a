/**
 * The send button and the receiver display. The session keeps one slot,
 * "api_payload", which is unset until the first successful send and is then
 * overwritten by every later successful send. In simulate mode the
 * prepared payload is stored as it is; otherwise it is POSTed and the
 * decoded response body is stored, unless any step of the exchange raised.
 */
module Receiver {
  import opened Wrappers
  import opened Records

  /**
   * What the slot can hold: the prepared payload itself (simulate mode) or
   * the decoded JSON body of the endpoint's response (type J, opaque).
   */
  datatype Received<V, J> = Local(payload: Payload<V>) | Remote(body: J)

  /**
   * How the HTTP exchange ended: no response at all (connection, DNS or
   * other transport failure), or a response with its status code and its
   * body decoded as JSON (None when the body is not valid JSON).
   */
  datatype Exchange<J> = Unreachable | Response(status: int, body: Option<J>)

  /** The message banner shown after a press of the send button. */
  datatype Notice = PostedInternally | PostedToEndpoint | PostFailed

  /** What the receiver section shows. */
  datatype View<V, J> = ShowReceived(received: Received<V, J>) | NothingReceivedYet

  /** One press of the send button, with the configuration at that moment. */
  datatype Press<V, J> = Press(simulate: bool, payload: Payload<V>, exchange: Exchange<J>)

  /** `response.raise_for_status()` raises for client and server error codes. */
  predicate RaisesForStatus(status: int)
  {
    400 <= status < 600
  }

  /**
   * The value `response.json()` yields when neither the POST, nor the
   * status check, nor the decoding raised; None when any of them did.
   */
  function Decoded<J>(x: Exchange<J>): (r: Option<J>)
    ensures r.Some? <==> x.Response? && !(400 <= x.status < 600) && x.body.Some?
    ensures r.Some? ==> r == x.body
  {
    match x
    case Unreachable => None
    case Response(status, body) => if RaisesForStatus(status) then None else body
  }

  /** Whether a press stores something. */
  predicate Succeeds<V, J>(p: Press<V, J>)
  {
    p.simulate || Decoded(p.exchange).Some?
  }

  /** What a successful press stores. */
  function Delivered<V, J>(p: Press<V, J>): Received<V, J>
    requires Succeeds(p)
  {
    if p.simulate then Local(p.payload) else Remote(Decoded(p.exchange).value)
  }

  /** The slot after one press. */
  function NextSlot<V, J>(slot: Option<Received<V, J>>, p: Press<V, J>): Option<Received<V, J>>
  {
    if Succeeds(p) then Some(Delivered(p)) else slot
  }

  /** The banner one press shows. */
  function NoticeOf<V, J>(p: Press<V, J>): Notice
  {
    if p.simulate then PostedInternally
    else if Decoded(p.exchange).Some? then PostedToEndpoint
    else PostFailed
  }

  /** The session state: the one slot the dispatcher writes. */
  class Session<V, J> {
    var slot: Option<Received<V, J>>

    /** A fresh session has nothing received. */
    constructor ()
      ensures slot == None
    {
      slot := None;
    }

    /**
     * One press of the send button. In simulate mode the payload is stored;
     * otherwise the POST's decoded response is stored if no step raised,
     * and on any failure the slot keeps its previous content.
     */
    method Send(p: Press<V, J>) returns (notice: Notice)
      modifies this
      ensures p.simulate ==> slot == Some(Local(p.payload)) && notice == PostedInternally
      ensures !p.simulate && Decoded(p.exchange).Some? ==>
        slot == Some(Remote(Decoded(p.exchange).value)) && notice == PostedToEndpoint
      ensures !p.simulate && Decoded(p.exchange).None? ==>
        slot == old(slot) && notice == PostFailed
      ensures slot == NextSlot(old(slot), p) && notice == NoticeOf(p)
    {
      if p.simulate {
        slot := Some(Local(p.payload));
        notice := PostedInternally;
      } else {
        match p.exchange
        case Unreachable =>
          notice := PostFailed;
        case Response(status, body) =>
          if RaisesForStatus(status) {
            notice := PostFailed;
          } else if body.None? {
            notice := PostFailed;
          } else {
            slot := Some(Remote(body.value));
            notice := PostedToEndpoint;
          }
      }
    }

    /** The receiver section: the slot's content once set, else the notice. */
    function Shown(): (v: View<V, J>)
      reads this
      ensures v == NothingReceivedYet <==> slot.None?
      ensures slot.Some? ==> v == ShowReceived(slot.value)
    {
      match slot
      case None => NothingReceivedYet
      case Some(received) => ShowReceived(received)
    }
  }

  /** The slot after a series of presses, starting from `slot`. */
  function Replay<V, J>(slot: Option<Received<V, J>>, presses: seq<Press<V, J>>): Option<Received<V, J>>
  {
    if presses == [] then slot
    else NextSlot(Replay(slot, presses[..|presses| - 1]), presses[|presses| - 1])
  }

  /** Presses that all fail leave the slot exactly as it was. */
  lemma {:induction false} ReplayAllFailed<V, J>(slot: Option<Received<V, J>>, presses: seq<Press<V, J>>)
    requires forall i :: 0 <= i < |presses| ==> !Succeeds(presses[i])
    ensures Replay(slot, presses) == slot
  {
    if presses != [] {
      var init := presses[..|presses| - 1];
      forall i | 0 <= i < |init| ensures !Succeeds(init[i]) {
        assert init[i] == presses[i];
      }
      ReplayAllFailed(slot, init);
    }
  }

  /** The slot holds what the last successful press delivered. */
  lemma {:induction false} ReplayLastSuccess<V, J>(slot: Option<Received<V, J>>, presses: seq<Press<V, J>>, k: nat)
    requires k < |presses| && Succeeds(presses[k])
    requires forall i :: k < i < |presses| ==> !Succeeds(presses[i])
    ensures Replay(slot, presses) == Some(Delivered(presses[k]))
  {
    var init := presses[..|presses| - 1];
    if k < |presses| - 1 {
      assert init[k] == presses[k];
      forall i | k < i < |init| ensures !Succeeds(init[i]) {
        assert init[i] == presses[i];
      }
      ReplayLastSuccess(slot, init, k);
    }
  }

  /**
   * Once set the slot is never unset again: after a series of presses it
   * is unset exactly when it was unset before and no press succeeded.
   */
  lemma {:induction false} ReplayUnsetIff<V, J>(slot: Option<Received<V, J>>, presses: seq<Press<V, J>>)
    ensures Replay(slot, presses).None? <==>
      slot.None? && forall i :: 0 <= i < |presses| ==> !Succeeds(presses[i])
  {
    if presses != [] {
      var init := presses[..|presses| - 1];
      ReplayUnsetIff(slot, init);
      forall i | 0 <= i < |init| ensures init[i] == presses[i] { }
    }
  }
}
