/**
 * The scientific extension adapter. `ScientificItemExt` and
 * `ScientificCollectionExt` run the same code, the first over
 * `item.properties` and the second over `collection.extra_fields`; one class,
 * ScientificExt, models both over a Host that stands for either.
 */
module Scientific {
  import opened Wrappers
  import opened Sequences
  import opened Publications
  import opened LinkSync
  import Doi

  /**
   * What the extension sees of an Item or Collection: the three `sci:`
   * entries of its field dictionary (None where the key is absent) and its
   * link list.
   */
  class Host {
    var doi: Option<string>                  // "sci:doi"
    var citation: Option<string>             // "sci:citation"
    var publications: Option<seq<PubDict>>   // "sci:publications"
    const links: LinkList

    /** A host with none of the three keys and no links. */
    constructor ()
      ensures doi.None? && citation.None? && publications.None?
      ensures fresh(links) && links.items == []
    {
      doi, citation, publications := None, None, None;
      links := new LinkList([]);
    }

    /** `add_link`: appends to the link list. */
    method AddLink(link: Link)
      modifies links
      ensures links.items == old(links.items) + [link]
    {
      links.items := links.items + [link];
    }
  }

  /** Python's truth value of an optional string: present and not empty. */
  predicate IsTruthy(s: Option<string>)
  {
    s.Some? && s.value != ""
  }

  /** Python's truth value of an optional list: present and not empty. */
  predicate IsNonEmpty(v: Option<seq<Publication>>)
  {
    v.Some? && |v.value| > 0
  }

  /** The stored list after a removal: the key is deleted rather than left holding []. */
  function Shrunk(ds: seq<PubDict>): (r: Option<seq<PubDict>>)
    ensures r != Some([])
    ensures r.Some? ==> r.value == ds
    ensures r.None? <==> ds == []
  {
    if ds == [] then None else Some(ds)
  }

  class ScientificExt {
    const host: Host

    constructor (host: Host)
      ensures this.host == host
    {
      this.host := host;
    }

    /** The `doi` property: the stored value, None when unset. */
    function GetDoi(): Option<string>
      reads host
    {
      host.doi
    }

    /** The `citation` property: the stored value, None when unset. */
    function GetCitation(): Option<string>
      reads host
    {
      host.citation
    }

    /** The `publications` property: the stored list decoded, [] when the key is absent. */
    function GetPublications(): Result<seq<Publication>>
      reads host
    {
      if host.publications.None? then Success([]) else DecodeAll(host.publications.value)
    }

    /**
     * Setting `doi` stores the value and appends one more `cite-as` link to
     * its URL; earlier links, including those of earlier DOIs, stay.
     */
    method SetDoi(v: string)
      modifies host, host.links
      ensures GetDoi() == Some(v)
      ensures host.citation == old(host.citation) && host.publications == old(host.publications)
      ensures host.links.items == old(host.links.items) + [Link(CITE_AS, Doi.DoiToUrl(v))]
    {
      host.doi := Some(v);
      var url := Doi.DoiToUrl(host.doi.value);
      host.AddLink(Link(CITE_AS, url));
    }

    /** Setting `citation` stores the value and changes nothing else. */
    method SetCitation(v: string)
      modifies host
      ensures GetCitation() == Some(v)
      ensures host.doi == old(host.doi) && host.publications == old(host.publications)
    {
      host.citation := Some(v);
    }

    /**
     * Setting `publications` overwrites the stored list with the mapping form
     * of `v`, which reads back as `v`, and appends one `cite-as` link per
     * publication, in order, without looking at the links already there.
     */
    method SetPublications(v: seq<Publication>)
      modifies host, host.links
      ensures host.publications == Some(EncodeAll(v))
      ensures GetPublications() == Success(v)
      ensures host.doi == old(host.doi) && host.citation == old(host.citation)
      ensures host.links.items == old(host.links.items) + CiteLinks(v)
    {
      host.publications := Some(EncodeAll(v));
      var i := 0;
      while i < |v|
        modifies host.links
        invariant i <= |v|
        invariant host.links.items == old(host.links.items) + CiteLinks(v[..i])
      {
        host.AddLink(GetLink(v[i]));
        CiteLinksSnoc(v[..i], v[i]);
        assert v[..i] + [v[i]] == v[..i + 1];
        i := i + 1;
      }
      assert v[..i] == v;
      DecodeEncode(v);
    }

    /**
     * `apply`: each argument that is present and non-empty goes through its
     * setter, in the order doi, citation, publications; the others are skipped,
     * so `apply` can never clear a field.
     */
    method Apply(doi: Option<string>, citation: Option<string>, publications: Option<seq<Publication>>)
      modifies host, host.links
      ensures host.doi == if IsTruthy(doi) then doi else old(host.doi)
      ensures host.citation == if IsTruthy(citation) then citation else old(host.citation)
      ensures host.publications ==
                if IsNonEmpty(publications) then Some(EncodeAll(publications.value))
                else old(host.publications)
      ensures host.links.items ==
                old(host.links.items)
                + (if IsTruthy(doi) then [Link(CITE_AS, Doi.DoiToUrl(doi.value))] else [])
                + (if IsNonEmpty(publications) then CiteLinks(publications.value) else [])
    {
      ghost var doiLinks := if IsTruthy(doi) then [Link(CITE_AS, Doi.DoiToUrl(doi.value))] else [];
      ghost var pubLinks := if IsNonEmpty(publications) then CiteLinks(publications.value) else [];
      if IsTruthy(doi) {
        SetDoi(doi.value);
      }
      assert host.links.items == old(host.links.items) + doiLinks;
      if IsTruthy(citation) {
        SetCitation(citation.value);
      }
      ghost var afterDoi := host.links.items;
      if IsNonEmpty(publications) {
        SetPublications(publications.value);
      }
      assert host.links.items == afterDoi + pubLinks;
    }

    /**
     * `remove_publication`.
     *  - Without the `sci:publications` key: nothing happens.
     *  - Without an argument: the stored list is decoded (a KeyError stops
     *    everything before any change), `remove_link` runs once per stored
     *    publication in stored order, and the key is deleted.
     *  - With a publication: `remove_link` runs for it first; then the first
     *    stored mapping equal to its mapping form is removed, and ValueError is
     *    raised if there is none. The link removal is not undone on that
     *    error. A list left empty is deleted.
     * `doi` and `citation` never change, and a call that returns normally
     * never leaves an empty list stored.
     */
    method RemovePublication(publication: Option<Publication>) returns (r: Outcome)
      modifies host, host.links
      ensures host.doi == old(host.doi) && host.citation == old(host.citation)
      ensures r.Pass? ==> host.publications != Some([])
      ensures old(host.publications).None? ==>
                && r == Pass
                && host.publications.None?
                && host.links.items == old(host.links.items)
      ensures old(host.publications).Some? && publication.None? ==>
                match DecodeAll(old(host.publications).value)
                case Failure(e) =>
                  && r == Fail(e)
                  && host.publications == old(host.publications)
                  && host.links.items == old(host.links.items)
                case Success(stored) =>
                  && r == Pass
                  && host.publications.None?
                  && host.links.items == RemoveAll(old(host.links.items), stored)
      ensures old(host.publications).Some? && publication.Some? ==>
                && host.links.items == RemoveFirst(old(host.links.items), GetLink(publication.value))
                && (r.Pass? <==> ToDict(publication.value) in old(host.publications).value)
                && (r.Fail? ==> r.error == ValueError && host.publications == old(host.publications))
                && (r.Pass? ==>
                      host.publications == Shrunk(RemoveFirst(old(host.publications).value, ToDict(publication.value))))
    {
      if host.publications.None? {
        return Pass;
      }

      if publication.None? {
        var decoded := GetPublications();
        if decoded.Failure? {
          return Fail(decoded.error);
        }
        var stored := decoded.value;
        var i := 0;
        while i < |stored|
          modifies host.links
          invariant i <= |stored|
          invariant host.links.items == RemoveAll(old(host.links.items), stored[..i])
        {
          RemoveLink(host.links, stored[i]);
          assert stored[..i + 1][..i] == stored[..i];
          i := i + 1;
        }
        assert stored[..i] == stored;
        host.publications := None;
        return Pass;
      }

      // One publication and its link to remove.
      var pub := publication.value;
      RemoveLink(host.links, pub);
      var toRemove := ToDict(pub);
      var list := host.publications.value;
      if toRemove !in list {
        return Fail(ValueError);
      }
      list := RemoveFirst(list, toRemove);
      host.publications := Some(list);
      if list == [] {
        host.publications := None;
      }
      r := Pass;
    }
  }
}
