/**
 * The three requests the agent makes (mock.go): the address each is sent to,
 * and what `retrieveConfigurationFrom`, `retrieveTriggersFrom` and
 * `ackTrigger` make of the reply. The transport is a parameter: `get` gives
 * the reply to a GET of an address; `put` the reply to the n-th PUT of a tick
 * and its address. JSON decoding is a parameter too: `decode` gives the
 * decoded value, or None when the body is malformed.
 */
module Endpoints {
  import opened Results
  import opened Http
  import Decimal

  /** A trigger; of its fields only the id takes part in the protocol. */
  datatype Trigger = Trigger(id: int)

  const ApiPrefix: string := "/api/v1/operator/"

  /** The configuration of `cluster`, on the service at `url`. */
  function ConfigurationAddress(url: string, cluster: string): (r: string)
    ensures |r| == |url| + |ApiPrefix| + 14 + |cluster|
    ensures r[..|url|] == url && r[|url|..|url| + |ApiPrefix|] == ApiPrefix
    ensures r[|url| + |ApiPrefix|..|r| - |cluster|] == "configuration/"
    ensures r[|r| - |cluster|..] == cluster
  {
    url + ApiPrefix + "configuration/" + cluster
  }

  /** The pending triggers of `cluster`, on the service at `url`. */
  function TriggersAddress(url: string, cluster: string): (r: string)
    ensures |r| == |url| + |ApiPrefix| + 9 + |cluster|
    ensures r[..|url|] == url && r[|url|..|url| + |ApiPrefix|] == ApiPrefix
    ensures r[|url| + |ApiPrefix|..|r| - |cluster|] == "triggers/"
    ensures r[|r| - |cluster|..] == cluster
  {
    url + ApiPrefix + "triggers/" + cluster
  }

  function AckPrefix(url: string, cluster: string): string {
    url + ApiPrefix + "trigger/" + cluster + "/ack/"
  }

  /**
   * The acknowledgement of `trigger`: the acknowledgement prefix followed by
   * the id's decimal form.
   */
  function AckAddress(url: string, cluster: string, trigger: int): (r: string)
    ensures r == AckPrefix(url, cluster) + Decimal.Itoa(trigger)
  {
    AckPrefix(url, cluster) + Decimal.Itoa(trigger)
  }

  /** The trigger id an acknowledgement address for `url` and `cluster` names, if any. */
  function AckedTrigger(url: string, cluster: string, address: string): Option<int> {
    var prefix := AckPrefix(url, cluster);
    if |prefix| <= |address| && address[..|prefix|] == prefix then
      Decimal.ParseInt(address[|prefix|..])
    else
      None
  }

  /** The acknowledgement address names exactly the trigger it was built for. */
  lemma AckAddressRoundTrip(url: string, cluster: string, trigger: int)
    ensures AckedTrigger(url, cluster, AckAddress(url, cluster, trigger)) == Some(trigger)
  {
    var prefix := AckPrefix(url, cluster);
    var address := AckAddress(url, cluster, trigger);
    assert address[|prefix|..] == Decimal.Itoa(trigger);
    Decimal.ParseItoa(trigger);
  }

  /** Two triggers of one cluster are acknowledged at different addresses. */
  lemma AckAddressInjective(url: string, cluster: string, t1: int, t2: int)
    requires AckAddress(url, cluster, t1) == AckAddress(url, cluster, t2)
    ensures t1 == t2
  {
    AckAddressRoundTrip(url, cluster, t1);
    AckAddressRoundTrip(url, cluster, t2);
  }

  /** The character `j` places after the API prefix is the `j`-th of what follows it. */
  lemma SegmentAt(url: string, segment: string, j: nat)
    requires j < |segment|
    ensures (url + ApiPrefix + segment)[|url| + |ApiPrefix| + j] == segment[j]
  {
  }

  /** The character `j` places after the API prefix in an acknowledgement address. */
  lemma AckSegmentAt(url: string, cluster: string, trigger: int, j: nat)
    requires j < 8
    ensures |url| + |ApiPrefix| + j < |AckAddress(url, cluster, trigger)|
    ensures AckAddress(url, cluster, trigger)[|url| + |ApiPrefix| + j] == "trigger/"[j]
  {
    var prefix := AckPrefix(url, cluster);
    assert prefix == url + ApiPrefix + ("trigger/" + cluster + "/ack/");
    SegmentAt(url, "trigger/" + cluster + "/ack/", j);
    assert AckAddress(url, cluster, trigger)[|url| + |ApiPrefix| + j] == prefix[|url| + |ApiPrefix| + j];
  }

  /** The character `j` places after the API prefix in a configuration address. */
  lemma ConfigurationSegmentAt(url: string, cluster: string, j: nat)
    requires j < 14
    ensures |url| + |ApiPrefix| + j < |ConfigurationAddress(url, cluster)|
    ensures ConfigurationAddress(url, cluster)[|url| + |ApiPrefix| + j] == "configuration/"[j]
  {
    assert ConfigurationAddress(url, cluster) == url + ApiPrefix + ("configuration/" + cluster);
    SegmentAt(url, "configuration/" + cluster, j);
  }

  /** The character `j` places after the API prefix in a triggers address. */
  lemma TriggersSegmentAt(url: string, cluster: string, j: nat)
    requires j < 9
    ensures |url| + |ApiPrefix| + j < |TriggersAddress(url, cluster)|
    ensures TriggersAddress(url, cluster)[|url| + |ApiPrefix| + j] == "triggers/"[j]
  {
    assert TriggersAddress(url, cluster) == url + ApiPrefix + ("triggers/" + cluster);
    SegmentAt(url, "triggers/" + cluster, j);
  }

  lemma ConfigurationNotTriggers(url: string, c1: string, c2: string)
    ensures ConfigurationAddress(url, c1) != TriggersAddress(url, c2)
  {
    ConfigurationSegmentAt(url, c1, 0);
    TriggersSegmentAt(url, c2, 0);
  }

  lemma ConfigurationNotAck(url: string, c1: string, c2: string, trigger: int)
    ensures ConfigurationAddress(url, c1) != AckAddress(url, c2, trigger)
  {
    ConfigurationSegmentAt(url, c1, 0);
    AckSegmentAt(url, c2, trigger, 0);
  }

  lemma TriggersNotAck(url: string, c1: string, c2: string, trigger: int)
    ensures TriggersAddress(url, c1) != AckAddress(url, c2, trigger)
  {
    TriggersSegmentAt(url, c1, 7);
    AckSegmentAt(url, c2, trigger, 7);
  }

  /** The three kinds of request never share an address on one service. */
  lemma AddressesDistinct(url: string, c1: string, c2: string, trigger: int)
    ensures ConfigurationAddress(url, c1) != TriggersAddress(url, c2)
    ensures ConfigurationAddress(url, c1) != AckAddress(url, c2, trigger)
    ensures TriggersAddress(url, c1) != AckAddress(url, c2, trigger)
  {
    ConfigurationNotTriggers(url, c1, c2);
    ConfigurationNotAck(url, c1, c2, trigger);
    TriggersNotAck(url, c1, c2, trigger);
  }

  /**
   * retrieveConfigurationFrom: GET the configuration address; any read error
   * is passed on, a body that does not decode is an error, otherwise the
   * decoded map is the delta.
   */
  function RetrieveConfigurationFrom<V>(
    get: string -> Response, url: string, cluster: string,
    decode: seq<byte> -> Option<map<string, V>>): (r: Result<map<string, V>, Error>)
    ensures var reply := get(ConfigurationAddress(url, cluster));
      r.Success? <==> reply.Reply? && reply.status == StatusOK && reply.body.Some?
                      && decode(reply.body.value).Some?
    ensures r.Success? ==> r.value == decode(get(ConfigurationAddress(url, cluster)).body.value).value
    ensures var reply := get(ConfigurationAddress(url, cluster));
      reply.Reply? && reply.status == StatusOK && reply.body.None? ==> r == Failure(UnreadableBody)
    ensures var reply := get(ConfigurationAddress(url, cluster));
      reply.Reply? && reply.status == StatusOK && reply.body.Some? && decode(reply.body.value).None?
      ==> r == Failure(UndecodableBody)
  {
    match ReadRequest(get(ConfigurationAddress(url, cluster)))
    case Failure(e) => Failure(e)
    case Success(body) =>
      match decode(body)
      case None => Failure(UndecodableBody)
      case Some(delta) => Success(delta)
  }

  /** retrieveTriggersFrom: as above, for the list of pending triggers, in the service's order. */
  function RetrieveTriggersFrom(
    get: string -> Response, url: string, cluster: string,
    decode: seq<byte> -> Option<seq<Trigger>>): (r: Result<seq<Trigger>, Error>)
    ensures var reply := get(TriggersAddress(url, cluster));
      r.Success? <==> reply.Reply? && reply.status == StatusOK && reply.body.Some?
                      && decode(reply.body.value).Some?
    ensures r.Success? ==> r.value == decode(get(TriggersAddress(url, cluster)).body.value).value
    ensures var reply := get(TriggersAddress(url, cluster));
      reply.Reply? && reply.status == StatusOK && reply.body.None? ==> r == Failure(UnreadableBody)
    ensures var reply := get(TriggersAddress(url, cluster));
      reply.Reply? && reply.status == StatusOK && reply.body.Some? && decode(reply.body.value).None?
      ==> r == Failure(UndecodableBody)
  {
    match ReadRequest(get(TriggersAddress(url, cluster)))
    case Failure(e) => Failure(e)
    case Success(body) =>
      match decode(body)
      case None => Failure(UndecodableBody)
      case Some(triggers) => Success(triggers)
  }

  /** A reply that is not 200 OK fails the retrieval, whatever its body. */
  lemma RetrievalNeeds200<V>(
    get: string -> Response, url: string, cluster: string,
    decode: seq<byte> -> Option<map<string, V>>)
    requires get(ConfigurationAddress(url, cluster)).Reply?
    requires get(ConfigurationAddress(url, cluster)).status != StatusOK
    ensures RetrieveConfigurationFrom(get, url, cluster, decode)
            == Failure(UnexpectedStatus(get(ConfigurationAddress(url, cluster)).status))
  {
  }

  /** ackTrigger: PUT to the trigger's acknowledgement address; the outcome of the write. */
  function AckTrigger(put: (nat, string) -> Response, n: nat, url: string, cluster: string, trigger: int)
    : (r: Outcome<Error>)
    ensures r.Pass? <==> put(n, AckAddress(url, cluster, trigger)).Reply?
                         && WriteAccepted(put(n, AckAddress(url, cluster, trigger)).status)
  {
    WriteRequest(put(n, AckAddress(url, cluster, trigger)))
  }
}
