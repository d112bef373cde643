/**
 * One tick of each polling loop of the agent (`configurationGoroutine` and
 * `triggerGoroutine` in mock.go), with the replies of the service given as
 * parameters, and the configuration the first loop starts from.
 */
module Agent {
  import opened Results
  import opened Http
  import opened Endpoints
  import opened Configuration

  /**
   * What `json.Unmarshal` leaves in a fresh configuration: the entries it
   * stored, and whether it returned an error. A syntax error is found before
   * anything is stored; a type error (a number out of float64 range, say)
   * is reported after the whole object has been decoded, the other fields
   * stored.
   */
  datatype Unmarshalled<V> = Unmarshalled(entries: map<string, V>, failed: bool)

  /**
   * createOriginalConfiguration: empty when the file cannot be read (`file` is
   * None); otherwise whatever decoding left in the fresh map, returned whether
   * or not decoding reported an error.
   */
  function OriginalConfiguration<V>(file: Option<seq<byte>>, decode: seq<byte> -> Unmarshalled<V>)
    : (r: map<string, V>)
    ensures file.None? ==> r == map[]
    ensures file.Some? ==> r == decode(file.value).entries
  {
    match file
    case None => map[]
    case Some(payload) => decode(payload).entries
  }

  /**
   * The configuration after a tick whose retrieval came back as `fetched`: a
   * failed retrieval leaves it as it was, a successful one merges the delta
   * (its values overwrite those of the keys already present), and a seeded
   * configuration keeps its key set.
   */
  function ConfigTick<V>(c: map<string, V>, fetched: Result<map<string, V>, Error>): (r: map<string, V>)
    ensures fetched.Failure? ==> r == c
    ensures |c| != 0 ==> r.Keys == c.Keys
    ensures fetched.Success? && |c| == 0 ==> r == fetched.value
    ensures fetched.Success? ==> r == Merged(c, fetched.value)
    ensures fetched.Success? ==>
      forall k :: k in r && k in fetched.value ==> r[k] == fetched.value[k]
  {
    match fetched
    case Failure(_) => c
    case Success(delta) => Merged(c, delta)
  }

  /**
   * One iteration of configurationGoroutine's loop: retrieve, and on success
   * merge the delta into the goroutine's configuration. A failed retrieval
   * leaves the configuration as it was.
   */
  method ConfigurationTick<V>(
    c1: OperatorConfiguration<V>, get: string -> Response, url: string, cluster: string,
    decode: seq<byte> -> Option<map<string, V>>) returns (merged: bool)
    modifies c1
    ensures merged == RetrieveConfigurationFrom(get, url, cluster, decode).Success?
    ensures !merged ==> c1.entries == old(c1.entries)
    ensures c1.entries == ConfigTick(old(c1.entries), RetrieveConfigurationFrom(get, url, cluster, decode))
  {
    var fetched := RetrieveConfigurationFrom(get, url, cluster, decode);
    merged := false;
    if fetched.Success? {
      c1.MergeWith(fetched.value);
      merged := true;
    }
  }

  /**
   * The configuration after a run of ticks, one retrieval result per tick, in
   * order. Once the configuration holds a key its key set never changes again,
   * whatever the service sends: the service may update values, never add keys.
   * A run in which every retrieval fails leaves the configuration as it was.
   */
  function Run<V>(c: map<string, V>, fetches: seq<Result<map<string, V>, Error>>): (r: map<string, V>)
    ensures |c| != 0 ==> r.Keys == c.Keys
    ensures (forall i :: 0 <= i < |fetches| ==> fetches[i].Failure?) ==> r == c
    decreases |fetches|
  {
    if fetches == [] then
      c
    else
      var next := ConfigTick(c, fetches[0]);
      assert |c| != 0 ==> |next| != 0 by {
        if |c| != 0 {
          var k :| k in c;
          assert k in next;
        }
      }
      Run(next, fetches[1..])
  }

  /** A server error (or any non-200 reply) leaves the configuration exactly as it was. */
  lemma FailedTickUnchanged<V>(
    c: map<string, V>, get: string -> Response, url: string, cluster: string,
    decode: seq<byte> -> Option<map<string, V>>)
    requires get(ConfigurationAddress(url, cluster)).Reply?
    requires get(ConfigurationAddress(url, cluster)).status != StatusOK
    ensures ConfigTick(c, RetrieveConfigurationFrom(get, url, cluster, decode)) == c
  {
  }

  /** Repeating a tick that retrieves the same delta changes nothing more. */
  lemma RepeatedTickIdempotent<V>(c: map<string, V>, fetched: Result<map<string, V>, Error>)
    ensures ConfigTick(ConfigTick(c, fetched), fetched) == ConfigTick(c, fetched)
  {
    if fetched.Success? {
      MergeIdempotent(c, fetched.value);
    }
  }

  /** One acknowledgement issued by a trigger tick: the trigger, where it went, and how it ended. */
  datatype Ack = Ack(trigger: int, address: string, outcome: Outcome<Error>)

  /** One step of the ack loop: `t` acknowledged as the n-th PUT of the tick, its address and the write's outcome. */
  function AckOf(put: (nat, string) -> Response, n: nat, url: string, cluster: string, t: Trigger): Ack {
    Ack(t.id, AckAddress(url, cluster, t.id), AckTrigger(put, n, url, cluster, t.id))
  }

  /**
   * The acknowledging loop of triggerGoroutine: each trigger is acknowledged
   * in turn, as the next PUT of the tick. The outcome of an acknowledgement is
   * not looked at, so a failed one does not stop the rest.
   */
  method AckAll(put: (nat, string) -> Response, url: string, cluster: string, triggers: seq<Trigger>)
    returns (acks: seq<Ack>)
    ensures |acks| == |triggers|
    ensures forall i :: 0 <= i < |acks| ==> acks[i] == AckOf(put, i, url, cluster, triggers[i])
  {
    acks := [];
    var i := 0;
    while i < |triggers|
      invariant 0 <= i <= |triggers|
      invariant |acks| == i
      invariant forall k :: 0 <= k < i ==> acks[k] == AckOf(put, k, url, cluster, triggers[k])
    {
      var ack := AckOf(put, i, url, cluster, triggers[i]);
      acks := acks + [ack];
      i := i + 1;
    }
  }

  /**
   * One iteration of triggerGoroutine's loop: retrieve the pending triggers
   * and acknowledge each of them in the order retrieved, whatever the earlier
   * acknowledgements returned. Returns the acknowledgements issued, in order;
   * none when the retrieval failed.
   */
  method TriggerTick(
    get: string -> Response, put: (nat, string) -> Response, url: string, cluster: string,
    decode: seq<byte> -> Option<seq<Trigger>>) returns (acks: seq<Ack>)
    ensures RetrieveTriggersFrom(get, url, cluster, decode).Failure? ==> acks == []
    ensures RetrieveTriggersFrom(get, url, cluster, decode).Success? ==>
      var triggers := RetrieveTriggersFrom(get, url, cluster, decode).value;
      && |acks| == |triggers|
      && forall i :: 0 <= i < |acks| ==> acks[i] == AckOf(put, i, url, cluster, triggers[i])
  {
    acks := [];
    var fetched := RetrieveTriggersFrom(get, url, cluster, decode);
    if fetched.Success? {
      var triggers := fetched.value;
      if |triggers| > 0 {
        acks := AckAll(put, url, cluster, triggers);
      }
    }
  }
}
