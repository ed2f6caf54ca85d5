/**
 The canonical event record both mappers emit (an ObjectNode with twelve text
 fields) and the per-record loop of `mapEvents`, which keeps the records whose
 mapping succeeds and drops, in place, every record whose mapping throws.
 */
module Canonical {
  import opened Wrappers
  import opened Json

  datatype Record = Record(
    eventName: string,
    artists: string,
    startDate: string,
    endDate: string,
    thumbnail: string,
    url: string,
    location: string,
    place: string,
    category: string,
    tags: string,
    description: string,
    source: string)

  /** The ObjectNode built by `mapper.createObjectNode().put(...)`. */
  function ToNode(r: Record): (n: Node)
    ensures Get(n, "event_name") == Some(Text(r.eventName))
    ensures Get(n, "artists") == Some(Text(r.artists))
    ensures Get(n, "start_date") == Some(Text(r.startDate))
    ensures Get(n, "end_date") == Some(Text(r.endDate))
    ensures Get(n, "thumbnail") == Some(Text(r.thumbnail))
    ensures Get(n, "url") == Some(Text(r.url))
    ensures Get(n, "location") == Some(Text(r.location))
    ensures Get(n, "place") == Some(Text(r.place))
    ensures Get(n, "category") == Some(Text(r.category))
    ensures Get(n, "tags") == Some(Text(r.tags))
    ensures Get(n, "description") == Some(Text(r.description))
    ensures Get(n, "source") == Some(Text(r.source))
  {
    Object(map[
      "event_name" := Text(r.eventName),
      "artists" := Text(r.artists),
      "start_date" := Text(r.startDate),
      "end_date" := Text(r.endDate),
      "thumbnail" := Text(r.thumbnail),
      "url" := Text(r.url),
      "location" := Text(r.location),
      "place" := Text(r.place),
      "category" := Text(r.category),
      "tags" := Text(r.tags),
      "description" := Text(r.description),
      "source" := Text(r.source)])
  }

  /** The successful results of `f` over `xs`, in input order. */
  function Kept<A, B>(f: A -> Option<B>, xs: seq<A>): seq<B>
  {
    if |xs| == 0 then []
    else
      var last := xs[|xs| - 1];
      Kept(f, xs[..|xs| - 1]) + (if f(last).Some? then [f(last).value] else [])
  }

  /** The input positions whose result `Kept` keeps. */
  function KeptIndices<A, B>(f: A -> Option<B>, xs: seq<A>): seq<nat>
  {
    if |xs| == 0 then []
    else KeptIndices(f, xs[..|xs| - 1]) + (if f(xs[|xs| - 1]).Some? then [|xs| - 1] else [])
  }

  /** `Kept` is exactly the order-preserving subsequence of successful results:
      the kept positions increase, each kept record is the result at its
      position, and every position left out is one whose mapping failed. */
  lemma {:induction false} KeptIsOrderedSubsequence<A, B>(f: A -> Option<B>, xs: seq<A>)
    ensures |KeptIndices(f, xs)| == |Kept(f, xs)| <= |xs|
    ensures forall k :: 0 <= k < |KeptIndices(f, xs)| ==> KeptIndices(f, xs)[k] < |xs|
    ensures forall k, l :: 0 <= k < l < |KeptIndices(f, xs)| ==> KeptIndices(f, xs)[k] < KeptIndices(f, xs)[l]
    ensures forall k :: 0 <= k < |Kept(f, xs)| ==>
      f(xs[KeptIndices(f, xs)[k]]) == Some(Kept(f, xs)[k])
    ensures forall i :: 0 <= i < |xs| && i !in KeptIndices(f, xs) ==> f(xs[i]).None?
  {
    if |xs| > 0 {
      var init := xs[..|xs| - 1];
      KeptIsOrderedSubsequence(f, init);
      assert forall i :: 0 <= i < |init| ==> init[i] == xs[i];
    }
  }

  /** The `for (JsonNode event : data) try { mapped.add(map(event)); } catch ...`
      loop of `mapEvents`. */
  method MapAll<A, B>(f: A -> Option<B>, data: seq<A>) returns (mapped: seq<B>)
    ensures mapped == Kept(f, data)
    ensures |mapped| <= |data|
  {
    mapped := [];
    var i := 0;
    while i < |data|
      invariant 0 <= i <= |data|
      invariant mapped == Kept(f, data[..i])
    {
      assert data[..i + 1][..i] == data[..i];
      match f(data[i]) {
        case Some(r) => mapped := mapped + [r];
        case None =>
      }
      i := i + 1;
    }
    assert data[..|data|] == data;
    KeptIsOrderedSubsequence(f, data);
  }
}
