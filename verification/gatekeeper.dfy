/**
 * The proxy's request path (proxy/src/tracker_route/context.rs and
 * proxy/src/tracker_route/mod.rs): the check every announce passes before it
 * reaches the tracker, the filter update the backend sends, and the answer
 * relayed to the client.
 */
module Gatekeeper {
  import opened Wrappers
  import opened Bytes
  import opened RedisValues
  import PasskeyFilter
  import AnnounceData
  import SeederInfos
  import CompactPeers
  import Bencode
  import Tracker

  datatype ProxyError =
    | RequestError(msg: string)
    | ReplyTypeError            // the tracker's reply is not of the shape the proxy reads it as

  const BAD_PEER_ID: string := "peer_id's length should be 20 bytes!"
  const UNKNOWN_PASSKEY: string := "Passkey not found! Check your torrent please."
  const BYPASS_FAILED: string := "bypass to backend failed"

  /** Length in bytes of a BitTorrent peer id. */
  const PEER_ID_LEN: nat := 20

  /**
   * `Context::validation`: the peer id must be 20 bytes long, and then the
   * passkey must be in the filter. The filter is only read.
   */
  function Validation(f: PasskeyFilter.Filter, req: AnnounceData.AnnounceRequestData): (r: Result<(), ProxyError>)
    ensures r.Ok? <==> |req.peerId| == PEER_ID_LEN && PasskeyFilter.Contains(f, req.passkey)
    ensures |req.peerId| != PEER_ID_LEN ==> r == Err(RequestError(BAD_PEER_ID))
    ensures |req.peerId| == PEER_ID_LEN && !PasskeyFilter.Contains(f, req.passkey) ==> r == Err(RequestError(UNKNOWN_PASSKEY))
  {
    if |req.peerId| != PEER_ID_LEN then Err(RequestError(BAD_PEER_ID))
    else if !PasskeyFilter.Contains(f, req.passkey) then Err(RequestError(UNKNOWN_PASSKEY))
    else Ok(())
  }

  /**
   * `update_filter`: apply the deletion, then the insertion, then, when
   * `check_expand` asks for it, rebuild the filter from `keys`, the passkeys
   * of every enabled user read from the database. The rebuild runs as a
   * spawned task in the source; here it follows the update directly.
   */
  function UpdateFilter(f: PasskeyFilter.Filter, delete: Option<string>, put: Option<string>, keys: seq<string>)
    : (r: PasskeyFilter.Filter)
    ensures put.Some? && !PasskeyFilter.CheckExpand(Updated(f, delete, put)) ==> PasskeyFilter.Contains(r, put.value)
    ensures PasskeyFilter.CheckExpand(Updated(f, delete, put)) ==> forall k :: PasskeyFilter.Contains(r, k) <==> k in keys
    ensures !f.inExpand ==> !r.inExpand
  {
    var g := Updated(f, delete, put);
    if PasskeyFilter.CheckExpand(g) then PasskeyFilter.Expand(g, keys) else g
  }

  /** The filter after the deletion and insertion an update carries, before any rebuild. */
  function Updated(f: PasskeyFilter.Filter, delete: Option<string>, put: Option<string>): (r: PasskeyFilter.Filter)
    ensures put.Some? ==> PasskeyFilter.Contains(r, put.value)
    ensures r.inExpand == f.inExpand && r.capacity == f.capacity
  {
    var g := match delete case Some(k) => PasskeyFilter.DeleteKey(f, k) case None => f;
    match put
    case Some(k) => PasskeyFilter.InsertContains(g, k); PasskeyFilter.InsertKey(g, k)
    case None => g
  }

  /** How an announce ends. */
  datatype Outcome =
    | Answer(body: seq<byte>)      // 200 with the bencoded tracker response
    | Rejected(error: ProxyError)  // an error response
    | Panicked                     // the request task panicked

  /**
   * The client library's conversion of a reply into `Vec<Value>`: an array
   * gives its elements and nil gives none; any other reply, the tracker's
   * status reply among them, is a type error.
   */
  function ReplyValues(reply: Reply): (r: Result<seq<Reply>, ProxyError>)
    ensures r.Ok? <==> reply.Bulk? || reply.Nil?
    ensures reply.Bulk? ==> r == Ok(reply.items)
    ensures reply.Nil? ==> r == Ok([])
    ensures r.Err? ==> r.error == ReplyTypeError
  {
    match reply
    case Bulk(items) => Ok(items)
    case Nil => Ok([])
    case _ => Err(ReplyTypeError)
  }

  /**
   * The `announce` handler. `peerAddr` is the connection's address, `reply`
   * the tracker's reply to the `ANNOUNCE` command, and `bypassOk` whether
   * the backend accepted the relayed record; the network calls themselves are
   * not modelled. Only a validated request reaches the tracker; a reply that
   * does not convert ends the request before the record is relayed; the
   * answer carries the tracker's interval and peer lists as the encoder
   * writes them.
   */
  function Announce(f: PasskeyFilter.Filter, q: AnnounceData.AnnounceRequestData, peerAddr: Option<AnnounceData.IpAddr>,
                    reply: Reply, bypassOk: bool): (r: Outcome)
    ensures r.Answer? || r.Panicked? ==> Validation(f, q).Ok?
    ensures Validation(f, q).Err? ==> r == Rejected(Validation(f, q).error)
    ensures r.Panicked? <==> Validation(f, q).Ok? && AnnounceData.FixIp(q, peerAddr).Err?
    ensures Validation(f, q).Ok? && AnnounceData.FixIp(q, peerAddr).Ok? && ReplyValues(reply).Err? ==>
      r == Rejected(ReplyTypeError)
    ensures r.Answer? ==> bypassOk && ReplyValues(reply).Ok?
    ensures r.Answer? ==>
      Bencode.ParseValue(r.body)
        == Some((Bencode.BDict(AnnounceData.ResponseDict(AnnounceData.ResponseFrom(ReplyValues(reply).value))), |r.body|))
    ensures Validation(f, q).Ok? && AnnounceData.FixIp(q, peerAddr).Ok? && ReplyValues(reply).Ok? && !bypassOk ==>
      r == Rejected(RequestError(BYPASS_FAILED))
  {
    match Validation(f, q)
    case Err(e) => Rejected(e)
    case Ok(_) =>
      match AnnounceData.FixIp(q, peerAddr)
      case Err(_) => Panicked
      case Ok(_) =>
        match ReplyValues(reply)
        case Err(e) => Rejected(e)
        case Ok(vals) =>
          var body := AnnounceData.EncodeResponse(AnnounceData.ResponseFrom(vals));
          if bypassOk then Answer(body) else Rejected(RequestError(BYPASS_FAILED))
  }

  /**
   * A stop never gets through: the tracker answers every stop with a status
   * reply, the proxy cannot read that as a list, and the request fails before
   * the backend hears of the stop, whatever the backend would have said.
   */
  lemma StopNeverRelayed(ks: Tracker.Keyspace, treq: Tracker.AnnounceRequest, clock: u64, seed: nat,
                         f: PasskeyFilter.Filter, q: AnnounceData.AnnounceRequestData,
                         peerAddr: Option<AnnounceData.IpAddr>, bypassOk: bool)
    requires Tracker.IsStop(treq.event)
    ensures Validation(f, q).Ok? && AnnounceData.FixIp(q, peerAddr).Ok? ==>
      Announce(f, q, peerAddr, Tracker.Apply(ks, treq, clock, seed).1, bypassOk) == Rejected(ReplyTypeError)
    ensures !Announce(f, q, peerAddr, Tracker.Apply(ks, treq, clock, seed).1, bypassOk).Answer?
  {
    assert Tracker.Apply(ks, treq, clock, seed).1 == Tracker.STOP_REPLY;
  }

  /**
   * The reply's elements as the handler evidently means to read them: an
   * array gives its elements, and any other reply, the status the tracker
   * sends a stop among them, gives none.
   */
  function LenientValues(reply: Reply): (r: seq<Reply>)
    ensures reply.Bulk? ==> r == reply.items
    ensures !reply.Bulk? ==> r == []
  {
    if reply.Bulk? then reply.items else []
  }

  /**
   * The handler as evidently intended: every validated announce with an
   * address is relayed to the backend, a stop included, and the peer
   * buffers go to the client as compact byte strings.
   */
  function AnnounceIntended(f: PasskeyFilter.Filter, q: AnnounceData.AnnounceRequestData,
                            peerAddr: Option<AnnounceData.IpAddr>, reply: Reply, bypassOk: bool): (r: Outcome)
    ensures Validation(f, q).Err? ==> r == Rejected(Validation(f, q).error)
    ensures r.Panicked? <==> Validation(f, q).Ok? && AnnounceData.FixIp(q, peerAddr).Err?
    ensures r.Answer? <==> Validation(f, q).Ok? && AnnounceData.FixIp(q, peerAddr).Ok? && bypassOk
    ensures r.Answer? ==>
      Bencode.ParseValue(r.body)
        == Some((Bencode.BDict(AnnounceData.CompactResponseDict(AnnounceData.ResponseFrom(LenientValues(reply)))), |r.body|))
  {
    match Validation(f, q)
    case Err(e) => Rejected(e)
    case Ok(_) =>
      match AnnounceData.FixIp(q, peerAddr)
      case Err(_) => Panicked
      case Ok(_) =>
        var body := AnnounceData.EncodeCompactResponse(AnnounceData.ResponseFrom(LenientValues(reply)));
        if bypassOk then Answer(body) else Rejected(RequestError(BYPASS_FAILED))
  }

  /**
   * Corrected, a stop reaches the backend: the outcome then depends only on
   * whether the backend accepts it, and the client gets the default interval
   * and no peers.
   */
  lemma StopRelayedWhenCorrected(ks: Tracker.Keyspace, treq: Tracker.AnnounceRequest, clock: u64, seed: nat,
                                 f: PasskeyFilter.Filter, q: AnnounceData.AnnounceRequestData,
                                 peerAddr: Option<AnnounceData.IpAddr>, bypassOk: bool)
    requires Tracker.IsStop(treq.event)
    requires Validation(f, q).Ok? && AnnounceData.FixIp(q, peerAddr).Ok?
    ensures AnnounceIntended(f, q, peerAddr, Tracker.Apply(ks, treq, clock, seed).1, bypassOk).Answer? <==> bypassOk
    ensures AnnounceData.ResponseFrom(LenientValues(Tracker.Apply(ks, treq, clock, seed).1))
      == AnnounceData.AnnounceResponseData(AnnounceData.DEFAULT_INTERVAL, [], [])
  {
    assert Tracker.Apply(ks, treq, clock, seed).1 == Tracker.STOP_REPLY;
  }

  /**
   * Corrected, the client's `peers` and `peers6` are byte strings that
   * decode to exactly the peers the tracker's `gen_response` chose.
   */
  lemma IntendedRelaysPeers(si: SeederInfos.SeederInfo, numWant: nat, seed: nat,
                            f: PasskeyFilter.Filter, q: AnnounceData.AnnounceRequestData,
                            peerAddr: Option<AnnounceData.IpAddr>)
    requires Validation(f, q).Ok? && AnnounceData.FixIp(q, peerAddr).Ok?
    ensures var r := AnnounceIntended(f, q, peerAddr, SeederInfos.GenResponse(si, numWant, seed), true);
      && r.Answer?
      && Bencode.ParseValue(r.body).Some?
      && Bencode.ParseValue(r.body).value.0.pairs[1].value.BBytes?
      && CompactPeers.Decode(Bencode.ParseValue(r.body).value.0.pairs[1].value.b, 4)
         == Some(CompactPeers.Addrs4(SeederInfos.Served(si, numWant, seed)))
      && CompactPeers.Decode(Bencode.ParseValue(r.body).value.0.pairs[2].value.b, 16)
         == Some(CompactPeers.Addrs6(SeederInfos.Served(si, numWant, seed)))
  {
    TrackerReplyRelayed(si, numWant, seed);
  }

  /**
   * End to end: when the tracker answers with `SeederInfo::gen_response`,
   * the client's dictionary holds the tracker's interval and compact peer
   * lists that decode to exactly the peers the tracker chose.
   */
  lemma TrackerReplyRelayed(si: SeederInfos.SeederInfo, numWant: nat, seed: nat)
    ensures ReplyValues(SeederInfos.GenResponse(si, numWant, seed)) == Ok(SeederInfos.GenResponse(si, numWant, seed).items)
    ensures AnnounceData.ResponseFrom(SeederInfos.GenResponse(si, numWant, seed).items).interval == SeederInfos.INTERVAL
    ensures CompactPeers.Decode(AnnounceData.ResponseFrom(SeederInfos.GenResponse(si, numWant, seed).items).peers, 4)
      == Some(CompactPeers.Addrs4(SeederInfos.Served(si, numWant, seed)))
    ensures CompactPeers.Decode(AnnounceData.ResponseFrom(SeederInfos.GenResponse(si, numWant, seed).items).peers6, 16)
      == Some(CompactPeers.Addrs6(SeederInfos.Served(si, numWant, seed)))
  {
  }

  /**
   * A passkey the backend has just set is accepted on the next announce with
   * a well-formed peer id, unless the update triggered a rebuild, in which
   * case the database's keys decide.
   */
  lemma SetPasskeyAdmitted(f: PasskeyFilter.Filter, delete: Option<string>, pk: string, keys: seq<string>,
                           q: AnnounceData.AnnounceRequestData)
    requires q.passkey == pk && |q.peerId| == PEER_ID_LEN
    ensures Validation(UpdateFilter(f, delete, Some(pk), keys), q).Ok? <==>
      !PasskeyFilter.CheckExpand(Updated(f, delete, Some(pk))) || pk in keys
  {
  }
}
