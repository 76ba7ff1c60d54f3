/**
 The producer and the consumer joined: a message is serialised to JSON,
 carried over the topic, decoded again and handed to the aggregator, one
 polled batch at a time.
 */
module Pipeline {
  import opened Wrappers
  import opened Categorizer
  import opened Aggregator
  import opened Producer
  import opened PyStr

  /** `json.dumps` on the producer side followed by `json.loads` on the consumer side. */
  function Transmit(m: Message): Payload {
    Decoded(Present(m.offense), m.latitude, m.longitude)
  }

  /** The categories a batch adds to the history, in order. */
  function Accepted(batch: seq<Payload>): seq<Category> {
    if batch == [] then [] else Accepted(batch[..|batch| - 1]) + Ingest(batch[|batch| - 1])
  }

  lemma AcceptedSnoc(batch: seq<Payload>, p: Payload)
    ensures Accepted(batch + [p]) == Accepted(batch) + Ingest(p)
  {
    assert (batch + [p])[..|batch|] == batch;
  }

  /** The consumer's inner polling loop: `process_message` on each message of a batch, in order. */
  method ConsumeBatch(agg: CrimeAggregator, batch: seq<Payload>)
    requires agg.Valid()
    modifies agg
    ensures agg.Valid()
    ensures agg.ingested == old(agg.ingested) + Accepted(batch)
  {
    ghost var before := agg.ingested;
    var n := 0;
    while n < |batch|
      invariant n <= |batch|
      invariant Extends(agg.ingested, before, batch[..n])
      invariant agg.Valid()
    {
      ghost var h := agg.ingested;
      agg.ProcessMessage(batch[n]);
      assert agg.ingested == h + Ingest(batch[n]);
      ExtendsSnoc(h, before, batch[..n], batch[n]);
      assert batch[..n + 1] == batch[..n] + [batch[n]];
      n := n + 1;
    }
    assert batch[..n] == batch;
  }

  /** `h` is the history `before` followed by what `prefix` adds. */
  predicate Extends(h: seq<Category>, before: seq<Category>, prefix: seq<Payload>) {
    h == before + Accepted(prefix)
  }

  lemma ExtendsSnoc(h: seq<Category>, before: seq<Category>, prefix: seq<Payload>, p: Payload)
    requires Extends(h, before, prefix)
    ensures Extends(h + Ingest(p), before, prefix + [p])
  {
    AcceptedSnoc(prefix, p);
  }

  /** After a batch, each count has grown by the number of the batch's messages in its category. */
  lemma BatchCounts(h: seq<Category>, batch: seq<Payload>, c: Category)
    ensures CountOf(Tally(h + Accepted(batch)), c) == CountOf(Tally(h), c) + multiset(Accepted(batch))[c]
  {
    TallyAppend(h, Accepted(batch), c);
  }

  /** Categories ingested after a history `h` add their occurrences to its counts. */
  lemma TallyAppend(h: seq<Category>, extra: seq<Category>, c: Category)
    ensures CountOf(Tally(h + extra), c) == CountOf(Tally(h), c) + multiset(extra)[c]
  {
    TallyCounts(h + extra, c);
    TallyCounts(h, c);
  }

  /* ---------- from messages to counts ---------- */

  /** The payloads the consumer receives for the produced `messages`, in order. */
  function Published(messages: seq<Message>): (r: seq<Payload>)
    ensures |r| == |messages|
    ensures forall i :: 0 <= i < |messages| ==> r[i] == Transmit(messages[i])
  {
    if messages == [] then []
    else Published(messages[..|messages| - 1]) + [Transmit(messages[|messages| - 1])]
  }

  /** One produced message adds exactly the category of its offense to the history. */
  lemma MessageIngest(m: Message)
    ensures Ingest(Transmit(m)) == [Categorize(Some(m.offense))]
  {
  }

  /** Every message of a delivered sequence is counted once, under the category of its offense. */
  lemma {:induction false} EveryMessageCounted(messages: seq<Message>)
    ensures |Accepted(Published(messages))| == |messages|
    ensures forall i :: 0 <= i < |messages| ==>
              Accepted(Published(messages))[i] == Categorize(Some(messages[i].offense))
  {
    if messages != [] {
      var init, m := messages[..|messages| - 1], messages[|messages| - 1];
      var p := Published(init);
      EveryMessageCounted(init);
      assert Published(messages) == p + [Transmit(m)];
      AcceptedSnoc(p, Transmit(m));
      MessageIngest(m);
    }
  }

  /** Starting from an empty state, the counts shown on the chart add up to the number of messages received. */
  lemma CountsAddUpToMessages(messages: seq<Message>)
    ensures var h := Accepted(Published(messages));
      Total(FirstSeen(h), Tally(h)) == |messages|
  {
    EveryMessageCounted(messages);
    TallyTotal(Accepted(Published(messages)));
  }

  /** A message is plotted exactly when both its coordinates are set and non-zero. */
  lemma MessagePlottedIff(m: Message)
    ensures Truthy(Transmit(m).latitude) && Truthy(Transmit(m).longitude) <==>
              m.latitude.Some? && m.longitude.Some? && m.latitude.value != 0.0 && m.longitude.value != 0.0
  {
  }

  /** The message of an aggravated assault at a Kansas City point is counted as violent and plotted. */
  lemma AssaultMessageIsPlotted(m: Message)
    requires m.offense == "AGG ASSAULT" && m.latitude == Some(39.0997) && m.longitude == Some(-94.5785)
    ensures Ingest(Transmit(m)) == [ViolentCrime]
    ensures Truthy(Transmit(m).latitude) && Truthy(Transmit(m).longitude)
  {
    assert "AGG ASSAULT" == "AGG " + "ASSAULT";
    ContainsSuffix("AGG ", "ASSAULT");
    AssaultAnyCase("AGG ASSAULT");
  }
}
