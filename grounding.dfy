/** Which grounding references of a reply become links, and how each link
    looks (components/GroundingSection.tsx). */
module Grounding {
  import opened Optional
  import opened Types

  datatype LinkKind = WebLink | MapLink

  /** A rendered link: its target, the icon kind and its text. */
  datatype Link = Link(href: string, kind: LinkKind, text: string)

  /** The link a chunk renders, if any. Its data is `web` when present,
      otherwise `maps`; the map icon is chosen whenever `maps` is present,
      even beside `web`; the text is the title unless that is empty. */
  function LinkOf(c: GroundingChunk): (l: Option<Link>)
    ensures l.None? <==> c.web.None? && c.maps.None?
    ensures l.Some? ==> (l.value.kind == MapLink <==> c.maps.Some?)
    ensures l.Some? && c.web.Some? ==> l.value.href == c.web.value.uri
    ensures l.Some? && c.web.None? ==> l.value.href == c.maps.value.uri
    ensures l.Some? ==>
              var src := if c.web.Some? then c.web.value else c.maps.value;
              l.value.text == if src.title != [] then src.title else src.uri
  {
    var data := if c.web.Some? then c.web else c.maps;
    match data
    case None => None
    case Some(src) =>
      Some(Link(src.uri, if c.maps.Some? then MapLink else WebLink,
                if src.title != [] then src.title else src.uri))
  }

  /** The links of the chunks that have one, in chunk order. */
  function Links(chunks: seq<GroundingChunk>): (r: seq<Link>)
    ensures |r| <= |chunks|
  {
    if chunks == [] then []
    else
      (match LinkOf(chunks[0]) case Some(l) => [l] case None => []) + Links(chunks[1..])
  }

  /** The section: absent without metadata, without a chunk list or with an
      empty one; otherwise present, with the chunks' links (possibly none). */
  function Section(metadata: Option<GroundingMetadata>): (section: Option<seq<Link>>)
    ensures section.None? <==>
              metadata.None? || metadata.value.groundingChunks.None? || metadata.value.groundingChunks.value == []
    ensures section.Some? ==> section.value == Links(metadata.value.groundingChunks.value)
  {
    match metadata
    case None => None
    case Some(md) =>
      match md.groundingChunks
      case None => None
      case Some(chunks) => if chunks == [] then None else Some(Links(chunks))
  }

  /** Links keep the chunks' order: the links of a concatenation are the
      links of each part, one after the other. */
  lemma {:induction false} LinksAppend(a: seq<GroundingChunk>, b: seq<GroundingChunk>)
    ensures Links(a + b) == Links(a) + Links(b)
  {
    if a != [] {
      assert (a + b)[1..] == a[1..] + b;
      LinksAppend(a[1..], b);
    } else {
      assert a + b == b;
    }
  }

  /** Every chunk yields a link exactly when every chunk has `web` or `maps`;
      a chunk with neither is skipped. */
  lemma {:induction false} LinksComplete(chunks: seq<GroundingChunk>)
    ensures |Links(chunks)| == |chunks| <==>
              forall k :: 0 <= k < |chunks| ==> chunks[k].web.Some? || chunks[k].maps.Some?
  {
    if chunks != [] {
      LinksComplete(chunks[1..]);
      if LinkOf(chunks[0]).None? {
        assert !(chunks[0].web.Some? || chunks[0].maps.Some?);
      } else {
        forall k | 1 <= k < |chunks| ensures chunks[k] == chunks[1..][k - 1] {}
      }
    }
  }

  /** Each link comes from some chunk. */
  lemma {:induction false} LinksFromChunks(chunks: seq<GroundingChunk>, k: nat)
    requires k < |Links(chunks)|
    ensures exists j :: 0 <= j < |chunks| && LinkOf(chunks[j]) == Some(Links(chunks)[k])
  {
    var head := match LinkOf(chunks[0]) case Some(l) => [l] case None => [];
    if k < |head| {
      assert LinkOf(chunks[0]) == Some(Links(chunks)[k]);
    } else {
      LinksFromChunks(chunks[1..], k - |head|);
      var j :| 0 <= j < |chunks[1..]| && LinkOf(chunks[1..][j]) == Some(Links(chunks[1..])[k - |head|]);
      assert chunks[j + 1] == chunks[1..][j];
    }
  }
}
