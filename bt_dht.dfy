/**
  * The Python-facing `BTDht` object of src/lib.rs: a handle on a mainline
  * DHT node that is absent until `start`, and a local registry of the
  * services registered through it. The DHT's own calls (storing an
  * immutable item, looking one up, hashing a key) and bincode are outside
  * the model: their results are passed in.
  */
module BtDht {
  import opened Wrappers
  import opened Utf8
  import opened DhtHash
  import Keys

  /** A `u16`. */
  type Port = p: int | 0 <= p < 0x1_0000

  /** What a service registration stores. */
  datatype PeerInfo = PeerInfo(peerId: string, wsUrl: string, port: Port)

  /** A running mainline DHT node; its network state is not modelled. */
  datatype Dht = Dht

  /** One answer to an immutable-item lookup: the stored bytes and the node that sent them. */
  datatype Response = Response(value: seq<Byte>, from: string)

  /** What `put_immutable` reports: the item's target, or why the store failed. */
  datatype PutOutcome = Stored(target: Id) | PutFailed(reason: string)

  /** The errors the returned futures raise. */
  datatype DhtError =
    | DhtNotStarted                 // "DHT not started"
    | StoreFailed(reason: string)   // "Store failed: ..."
    | BadHash(cause: HashError)     // "Invalid hash format: ..." or "Hash must be 20 bytes (SHA1)"

  /**
    * The index of the first response whose value decodes as a PeerInfo
    * (`decode` stands for `bincode::deserialize`), if any does.
    */
  function FirstDecodable(responses: seq<Response>, decode: seq<Byte> -> Option<PeerInfo>): (k: Option<nat>)
    ensures k.Some? ==> k.value < |responses| && decode(responses[k.value].value).Some?
    ensures forall j :: 0 <= j < |responses| && (k.None? || j < k.value) ==> decode(responses[j].value).None?
    decreases |responses|
  {
    if responses == [] then None
    else if decode(responses[0].value).Some? then Some(0)
    else
      match FirstDecodable(responses[1..], decode)
      case None => None
      case Some(k) => Some(k + 1)
  }

  /** The `ws_url` a lookup answers with: that of the first decodable response, or None. */
  function FoundUrl(responses: seq<Response>, decode: seq<Byte> -> Option<PeerInfo>): Option<string> {
    match FirstDecodable(responses, decode)
    case None => None
    case Some(k) => Some(decode(responses[k].value).value.wsUrl)
  }

  /**
    * The response loop of `find_service` and `find_by_hash`: responses are
    * pulled one at a time, undecodable ones skipped, and the loop returns at
    * the first that decodes; `pulled` counts the responses it took.
    */
  method ScanResponses(responses: seq<Response>, decode: seq<Byte> -> Option<PeerInfo>)
    returns (url: Option<string>, pulled: nat)
    ensures url == FoundUrl(responses, decode)
    ensures FirstDecodable(responses, decode).Some? ==> pulled == FirstDecodable(responses, decode).value + 1
    ensures FirstDecodable(responses, decode).None? ==> pulled == |responses|
  {
    pulled := 0;
    while pulled < |responses|
      invariant pulled <= |responses|
      invariant forall j :: 0 <= j < pulled ==> decode(responses[j].value).None?
    {
      var res := responses[pulled];
      pulled := pulled + 1;
      match decode(res.value) {
        case Some(info) =>
          url := Some(info.wsUrl);
          return;
        case None =>
      }
    }
    url := None;
  }

  /** Responses after the first decodable one do not change the answer. */
  lemma {:induction false} FoundUrlIgnoresLater(responses: seq<Response>, later: seq<Response>, decode: seq<Byte> -> Option<PeerInfo>)
    requires FirstDecodable(responses, decode).Some?
    ensures FoundUrl(responses + later, decode) == FoundUrl(responses, decode)
    decreases |responses|
  {
    if !decode(responses[0].value).Some? {
      assert (responses + later)[1..] == responses[1..] + later;
      FoundUrlIgnoresLater(responses[1..], later, decode);
    }
  }

  class BTDht {
    var dht: Option<Dht>
    var services: map<string, PeerInfo>

    /** `BTDht::new`: no DHT node yet and no services. */
    constructor ()
      ensures dht == None && services == map[]
    {
      dht := None;
      services := map[];
    }

    /** `start`: the DHT node is created; the registry is untouched. */
    method Start()
      modifies this`dht
      ensures dht == Some(Dht)
    {
      dht := Some(Dht);
    }

    /**
      * `register_service`. The registry entry for `serviceKey` is replaced
      * before anything else, with a peer id `py-ws-<uuid>`; then, if the DHT
      * has been started, the serialized PeerInfo is stored and the target's
      * `Id(<hex>)` text returned. `uuid` is the random id drawn and `put` what
      * the store reports.
      */
    method RegisterService(serviceKey: string, wsUrl: string, port: Port, uuid: string, put: PutOutcome)
      returns (r: Result<string, DhtError>)
      modifies this`services
      ensures services == old(services)[serviceKey := PeerInfo("py-ws-" + uuid, wsUrl, port)]
      ensures dht.None? ==> r == Err(DhtNotStarted)
      ensures dht.Some? && put.Stored? ==> r == Ok(FormatId(put.target))
      ensures dht.Some? && put.PutFailed? ==> r == Err(StoreFailed(put.reason))
    {
      var info := PeerInfo("py-ws-" + uuid, wsUrl, port);
      services := services[serviceKey := info];
      if dht.None? {
        return Err(DhtNotStarted);
      }
      match put
      case Stored(target) =>
        r := Ok(FormatId(target));
      case PutFailed(reason) =>
        r := Err(StoreFailed(reason));
    }

    /**
      * `find_service`: after the started check, the lookup is for the hash
      * of the key's UTF-8 bytes (`hash` stands for `hash_immutable`, whose
      * 20 bytes `Id::from_bytes` always accepts) and its answers
      * (`responses`) are scanned.
      */
    method FindService(serviceKey: string, hash: seq<Byte> -> Id, responses: seq<Response>, decode: seq<Byte> -> Option<PeerInfo>)
      returns (r: Result<Option<string>, DhtError>, lookup: Option<Id>)
      ensures dht.None? ==> r == Err(DhtNotStarted) && lookup == None
      ensures dht.Some? ==> lookup == Some(hash(Encode(serviceKey))) && r == Ok(FoundUrl(responses, decode))
    {
      if dht.None? {
        return Err(DhtNotStarted), None;
      }
      lookup := Some(hash(Encode(serviceKey)));
      var url, _ := ScanResponses(responses, decode);
      r := Ok(url);
    }

    /**
      * `find_by_hash`: after the started check, the hash text is parsed; a
      * bad hash is an error and no lookup is made (`lookup` is None),
      * otherwise the lookup is for the parsed target and its answers
      * (`responses`) are scanned.
      */
    method FindByHash(hashStr: string, responses: seq<Response>, decode: seq<Byte> -> Option<PeerInfo>)
      returns (r: Result<Option<string>, DhtError>, lookup: Option<Id>)
      ensures dht.None? ==> r == Err(DhtNotStarted) && lookup == None
      ensures dht.Some? && ParseHash(hashStr).Err? ==> r == Err(BadHash(ParseHash(hashStr).error)) && lookup == None
      ensures dht.Some? && ParseHash(hashStr).Ok? ==>
        lookup == Some(ParseHash(hashStr).value) && r == Ok(FoundUrl(responses, decode))
    {
      lookup := None;
      if dht.None? {
        return Err(DhtNotStarted), None;
      }
      match ParseHash(hashStr) {
        case Err(e) =>
          return Err(BadHash(e)), None;
        case Ok(target) =>
          lookup := Some(target);
      }
      var url, _ := ScanResponses(responses, decode);
      r := Ok(url);
    }

    /** `list_services`: one `(key, ws_url)` pair per registered service, in the map's order. */
    method ListServices() returns (pairs: seq<(string, string)>)
      ensures |pairs| == |services|
      ensures forall i :: 0 <= i < |pairs| ==> pairs[i].0 in services && pairs[i].1 == services[pairs[i].0].wsUrl
      ensures forall k :: k in services ==> exists i :: 0 <= i < |pairs| && pairs[i].0 == k
      ensures forall i, j :: 0 <= i < j < |pairs| ==> pairs[i].0 != pairs[j].0
    {
      var keys := Keys.Enumerate(services);
      pairs := [];
      for i := 0 to |keys|
        invariant |pairs| == i
        invariant forall j :: 0 <= j < i ==> pairs[j] == (keys[j], services[keys[j]].wsUrl)
      {
        pairs := pairs + [(keys[i], services[keys[i]].wsUrl)];
      }
      forall k | k in services ensures exists i :: 0 <= i < |pairs| && pairs[i].0 == k {
        var i :| 0 <= i < |keys| && keys[i] == k;
        assert pairs[i].0 == k;
      }
    }
  }
}
