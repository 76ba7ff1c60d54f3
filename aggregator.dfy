/**
 The consumer's aggregate state: a count per category, kept in first-seen
 order like the insertion order of the consumer's dictionary, and an
 append-only list of located incidents.
 */
module Aggregator {
  import opened Wrappers
  import opened Categorizer

  /**
   What the message's JSON object holds under the key "offense": nothing,
   null, a string, or some other JSON value (number, boolean, array or
   object), of which only its Python truthiness matters.
   */
  datatype OffenseField = Missing | Null | Present(text: string) | NonText(truthy: bool)

  /**
   A message as the consumer sees it once `json.loads` has run: either it
   gives no JSON object (the decoding fails, or the value is not an object,
   so that `data.get` raises), or it gives an object whose offense and
   coordinates are read (a JSON number is a `Some`, null or an absent key
   is `None`).
   */
  datatype Payload =
    | Malformed
    | Decoded(offense: OffenseField, latitude: Option<real>, longitude: Option<real>)

  /** One point of the map, tagged with its category. */
  datatype Location = Location(latitude: real, longitude: real, category: Category)

  /**
   The category `categorize_crime(data.get("offense", "Unknown"))` gives, or
   `None` where it raises: a truthy value that is not a string has no
   `upper()`, while a falsy one is "Other" before that call is reached. A
   missing offense is categorised as the text "Unknown", which is "Other"
   (`UnknownIsOther`).
   */
  function OffenseCategory(f: OffenseField): (r: Option<Category>)
    ensures r == None <==> f == NonText(true)
    ensures f == Missing || f == Null || f == Present("") || f == NonText(false) ==> r == Some(Other)
    ensures f.Present? ==> r == Some(Categorize(Some(f.text)))
  {
    match f
    case Missing => UnknownIsOther(); Some(Categorize(Some("Unknown")))
    case Null => Some(Categorize(None))
    case Present(s) => Some(Categorize(Some(s)))
    case NonText(truthy) => if truthy then None else Some(Other)
  }

  /** The category a payload is counted under, or `None` when processing it raises before the count. */
  function Admitted(p: Payload): (r: Option<Category>)
    ensures r == None <==> p.Malformed? || p.offense == NonText(true)
  {
    if p.Malformed? then None else OffenseCategory(p.offense)
  }

  /** What processing a payload adds to the history of categories: its category, or nothing. */
  function Ingest(p: Payload): (r: seq<Category>)
    ensures |r| <= 1
    ensures r == [] <==> Admitted(p) == None
  {
    if Admitted(p).Some? then [Admitted(p).value] else []
  }

  /** Python truthiness of a coordinate: `None` and `0.0` are false. */
  predicate Truthy(x: Option<real>) {
    x.Some? && x.value != 0.0
  }

  /* ---------- the abstract history ---------- */

  /** The count the dictionary reports for `c`; a `defaultdict(int)` gives 0 for an absent key. */
  function CountOf(counts: map<Category, nat>, c: Category): nat {
    if c in counts then counts[c] else 0
  }

  /** `counts[c] += 1` on a `defaultdict(int)`. */
  function Bump(counts: map<Category, nat>, c: Category): (r: map<Category, nat>)
    ensures r.Keys == counts.Keys + {c}
    ensures CountOf(r, c) == CountOf(counts, c) + 1
    ensures forall d :: d != c ==> CountOf(r, d) == CountOf(counts, d)
  {
    counts[c := CountOf(counts, c) + 1]
  }

  /** The sum of the counts of `keys`. */
  function Total(keys: seq<Category>, counts: map<Category, nat>): nat {
    if keys == [] then 0 else CountOf(counts, keys[0]) + Total(keys[1..], counts)
  }

  predicate Distinct(s: seq<Category>) {
    forall i, j :: 0 <= i < j < |s| ==> s[i] != s[j]
  }

  /** The categories of `h` in the order of their first occurrence. */
  function FirstSeen(h: seq<Category>): seq<Category> {
    if h == [] then []
    else
      var prev := FirstSeen(h[..|h| - 1]);
      if h[|h| - 1] in prev then prev else prev + [h[|h| - 1]]
  }

  /** The first-seen order lists every category of the history, and each once. */
  lemma {:induction false} FirstSeenOrder(h: seq<Category>)
    ensures forall c :: c in FirstSeen(h) <==> c in h
    ensures Distinct(FirstSeen(h))
  {
    if h != [] {
      var p, x := h[..|h| - 1], h[|h| - 1];
      assert h == p + [x];
      FirstSeenOrder(p);
    }
  }

  /** The counts that ingesting the history `h` in order builds up, one increment per entry. */
  function Tally(h: seq<Category>): map<Category, nat> {
    if h == [] then map[]
    else
      var t := Tally(h[..|h| - 1]);
      Bump(t, h[|h| - 1])
  }

  /** The counts are the numbers of occurrences, and only categories that occurred have an entry. */
  lemma {:induction false} TallyCounts(h: seq<Category>, c: Category)
    ensures c in Tally(h) <==> c in h
    ensures CountOf(Tally(h), c) == multiset(h)[c]
  {
    if h != [] {
      var p, x := h[..|h| - 1], h[|h| - 1];
      assert h == p + [x];
      assert multiset(h) == multiset(p) + multiset{x};
      TallyCounts(p, c);
    }
  }

  lemma {:induction false} TotalOfOthers(keys: seq<Category>, counts: map<Category, nat>, c: Category, n: nat)
    requires c !in keys
    ensures Total(keys, counts[c := n]) == Total(keys, counts)
  {
    if keys != [] {
      TotalOfOthers(keys[1..], counts, c, n);
    }
  }

  /** Adding one to the count of a key adds one to the total. */
  lemma {:induction false} TotalIncrement(keys: seq<Category>, counts: map<Category, nat>, c: Category)
    requires Distinct(keys) && c in keys
    ensures Total(keys, Bump(counts, c)) == Total(keys, counts) + 1
  {
    if keys[0] == c {
      assert c !in keys[1..];
      TotalOfOthers(keys[1..], counts, c, CountOf(counts, c) + 1);
    } else {
      TotalIncrement(keys[1..], counts, c);
    }
  }

  lemma {:induction false} TotalAppend(keys: seq<Category>, counts: map<Category, nat>, c: Category)
    ensures Total(keys + [c], counts) == Total(keys, counts) + CountOf(counts, c)
  {
    if keys == [] {
      assert [] + [c] == [c];
    } else {
      assert (keys + [c])[1..] == keys[1..] + [c];
      TotalAppend(keys[1..], counts, c);
    }
  }

  lemma TallySnoc(h: seq<Category>, c: Category)
    ensures Tally(h + [c]) == Bump(Tally(h), c)
  {
    assert (h + [c])[..|h|] == h;
  }

  /** The counts of a history add up to its length. */
  lemma {:induction false} TallyTotal(h: seq<Category>)
    ensures Total(FirstSeen(h), Tally(h)) == |h|
  {
    if h != [] {
      var p, x := h[..|h| - 1], h[|h| - 1];
      assert h == p + [x];
      TallyTotal(p);
      TallySnoc(p, x);
      FirstSeenOrder(p);
      if x in FirstSeen(p) {
        TotalIncrement(FirstSeen(p), Tally(p), x);
      } else {
        TallyCounts(p, x);
        TotalAppend(FirstSeen(p), Tally(p)[x := 1], x);
        TotalOfOthers(FirstSeen(p), Tally(p), x, 1);
      }
    }
  }

  /** One more category in the history: its count grows by one and it joins the order if new. */
  lemma HistoryStep(h: seq<Category>, c: Category)
    ensures FirstSeen(h + [c]) == if c in Tally(h) then FirstSeen(h) else FirstSeen(h) + [c]
    ensures Tally(h + [c]) == Bump(Tally(h), c)
    ensures Total(FirstSeen(h + [c]), Tally(h + [c])) == |h| + 1
  {
    TallySnoc(h, c);
    assert (h + [c])[..|h|] == h;
    TallyCounts(h, c);
    FirstSeenOrder(h);
    TallyTotal(h + [c]);
  }

  /**
   The aggregate state summarises the history `h` of ingested categories:
   the key order is the first-seen order, each count is the number of
   occurrences (`SummaryFacts`), and every recorded location has non-zero
   coordinates and a counted category.
   */
  ghost predicate Summarises(h: seq<Category>, order: seq<Category>, counts: map<Category, nat>, locations: seq<Location>) {
    && order == FirstSeen(h)
    && counts == Tally(h)
    && |locations| <= |h|
    && forall i :: 0 <= i < |locations| ==>
         locations[i].category in counts && locations[i].latitude != 0.0 && locations[i].longitude != 0.0
  }

  /**
   What a summary guarantees: the order lists each counted category exactly
   once, each count is the number of occurrences, and the counts add up to
   the number of messages ingested, which bounds the number of located
   incidents.
   */
  lemma SummaryFacts(h: seq<Category>, order: seq<Category>, counts: map<Category, nat>, locations: seq<Location>)
    requires Summarises(h, order, counts, locations)
    ensures Distinct(order) && forall c :: c in order <==> c in counts
    ensures forall c :: CountOf(counts, c) == multiset(h)[c]
    ensures Total(order, counts) == |h|
    ensures |locations| <= Total(order, counts)
  {
    FirstSeenOrder(h);
    forall c
      ensures (c in counts <==> c in h) && CountOf(counts, c) == multiset(h)[c]
    {
      TallyCounts(h, c);
    }
    TallyTotal(h);
  }

  /** Ingesting one more category keeps the summary, with or without a new location. */
  lemma SummarisesStep(h: seq<Category>, order: seq<Category>, counts: map<Category, nat>,
                       locations: seq<Location>, c: Category, extra: seq<Location>)
    requires Summarises(h, order, counts, locations)
    requires |extra| <= 1 && forall i :: 0 <= i < |extra| ==>
               extra[i].category == c && extra[i].latitude != 0.0 && extra[i].longitude != 0.0
    ensures Summarises(h + [c], if c in counts then order else order + [c],
                       Bump(counts, c), locations + extra)
  {
    var order', counts' := if c in counts then order else order + [c], Bump(counts, c);
    HistoryStep(h, c);
    assert order' == FirstSeen(h + [c]);
    assert counts' == Tally(h + [c]);
    assert forall i :: 0 <= i < |locations + extra| ==> (locations + extra)[i].category in counts' by {
      assert forall i :: 0 <= i < |locations| ==> locations[i].category in counts';
    }
  }

  /* ---------- the aggregator ---------- */

  class CrimeAggregator {
    /** `crime_counts`. */
    var counts: map<Category, nat>
    /** The key order of `crime_counts`. */
    var order: seq<Category>
    /** `crime_locations`. */
    var locations: seq<Location>
    /** The categories of the messages ingested so far, in order. */
    ghost var ingested: seq<Category>

    ghost predicate Valid()
      reads this
    {
      Summarises(ingested, order, counts, locations)
    }

    /** The empty state the consumer starts from. */
    constructor ()
      ensures Valid()
      ensures counts == map[] && order == [] && locations == [] && ingested == []
    {
      counts, order, locations := map[], [], [];
      ingested := [];
    }

    /** Clearing both structures when the consumer starts. */
    method Reset()
      modifies this
      ensures Valid()
      ensures counts == map[] && order == [] && locations == [] && ingested == []
    {
      counts, order, locations := map[], [], [];
      ingested := [];
    }

    /**
     `process_message`: count the message's category and record its location
     if it has one. A message that raises before the count (no JSON object,
     or an offense `categorize_crime` cannot handle) changes nothing.
     */
    method ProcessMessage(p: Payload)
      requires Valid()
      modifies this
      ensures Valid()
      ensures ingested == old(ingested) + Ingest(p)
      ensures Admitted(p) == None ==>
        counts == old(counts) && order == old(order) && locations == old(locations)
      ensures Admitted(p).Some? ==>
        var c := Admitted(p).value;
        && counts == Bump(old(counts), c)
        && (forall d :: d != c ==> CountOf(counts, d) == CountOf(old(counts), d))
        && order == (if c in old(counts) then old(order) else old(order) + [c])
        && locations == old(locations) +
             (if Truthy(p.latitude) && Truthy(p.longitude)
              then [Location(p.latitude.value, p.longitude.value, c)] else [])
    {
      var category := Admitted(p);
      if category.None? {
        return;
      }
      var c := category.value;
      var extra := if Truthy(p.latitude) && Truthy(p.longitude)
                   then [Location(p.latitude.value, p.longitude.value, c)] else [];
      SummarisesStep(ingested, order, counts, locations, c, extra);
      if c !in counts {
        order := order + [c];
      }
      counts := Bump(counts, c);
      ingested := ingested + [c];
      if Truthy(p.latitude) && Truthy(p.longitude) {
        locations := locations + [Location(p.latitude.value, p.longitude.value, c)];
      }
    }
  }
}
