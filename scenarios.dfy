/**
 * Sequences of adapter calls and what they leave behind, proved from the
 * adapter's contracts alone.
 */
module ScientificScenarios {
  import opened Wrappers
  import opened Sequences
  import opened Publications
  import opened LinkSync
  import opened Scientific
  import Doi

  /** Setting the same DOI twice leaves two identical `cite-as` links. */
  method RepeatedDoiAccumulates(ext: ScientificExt, d: string)
    modifies ext.host, ext.host.links
    ensures ext.GetDoi() == Some(d)
    ensures ext.host.links.items ==
              old(ext.host.links.items) + [Link(CITE_AS, Doi.DoiToUrl(d)), Link(CITE_AS, Doi.DoiToUrl(d))]
  {
    ext.SetDoi(d);
    ext.SetDoi(d);
  }

  /**
   * Assigning publications and then clearing them all deletes the key and,
   * when none of the new links was there before, restores the link list
   * exactly; `doi` and `citation` are untouched.
   */
  method ClearUndoesSetPublications(ext: ScientificExt, v: seq<Publication>) returns (r: Outcome)
    requires forall i :: 0 <= i < |v| ==> GetLink(v[i]) !in ext.host.links.items
    modifies ext.host, ext.host.links
    ensures r == Pass
    ensures ext.host.publications.None?
    ensures ext.host.links.items == old(ext.host.links.items)
    ensures ext.host.doi == old(ext.host.doi) && ext.host.citation == old(ext.host.citation)
  {
    ghost var before := ext.host.links.items;
    ext.SetPublications(v);
    DecodeEncode(v);
    r := ext.RemovePublication(None);
    RemoveAllAfterAppend(before, v);
  }

  /**
   * On a host without publications or links, assigning [a, b] and removing a
   * leaves [b] stored and only b's link.
   */
  method TargetedRemoval(ext: ScientificExt, a: Publication, b: Publication) returns (r: Outcome)
    requires ext.host.links.items == []
    modifies ext.host, ext.host.links
    ensures r == Pass
    ensures ext.GetPublications() == Success([b])
    ensures ext.host.links.items == [GetLink(b)]
  {
    ext.SetPublications([a, b]);
    assert ext.host.links.items == [GetLink(a), GetLink(b)];
    assert EncodeAll([a, b]) == [ToDict(a), ToDict(b)];
    r := ext.RemovePublication(Some(a));
    assert RemoveFirst([ToDict(a), ToDict(b)], ToDict(a)) == [ToDict(b)];
    assert EncodeAll([b]) == [ToDict(b)];
    DecodeEncode([b]);
  }

  /**
   * On a fresh host, removing a publication that was never stored raises
   * ValueError, but its link removal has already happened: here it takes the
   * link that setting `doi` added, so the stored DOI is left without any link
   * to its URL.
   */
  method NonAtomicRemoval(d: string, c: string, q: Publication) returns (ext: ScientificExt, r: Outcome)
    requires q.doi != d
    ensures fresh(ext.host) && fresh(ext.host.links)
    ensures r == Fail(ValueError)
    ensures ext.GetDoi() == Some(d)
    ensures ext.GetPublications() == Success([q])
    ensures ext.host.links.items == [GetLink(q)]
    ensures forall k :: 0 <= k < |ext.host.links.items| ==> ext.host.links.items[k].target != Doi.DoiToUrl(d)
  {
    var h := new Host();
    ext := new ScientificExt(h);
    ext.SetDoi(d);
    ext.SetPublications([q]);
    var p := Publication(d, c);
    assert ext.host.links.items == [GetLink(p), GetLink(q)];
    ToDictInjective(p, q);
    assert EncodeAll([q]) == [ToDict(q)];
    r := ext.RemovePublication(Some(p));
    assert ext.host.links.items == [GetLink(q)];
    Doi.DoiToUrlInjective(q.doi, d);
    DecodeEncode([q]);
  }
}
