/**
 * The `Publication` value of the scientific extension, its mapping form as
 * stored under `sci:publications`, and the `cite-as` link it derives.
 */
module Publications {
  import opened Wrappers
  import Doi

  /** The link relation of every citation link. */
  const CITE_AS: string := "cite-as"

  /** A catalog link, reduced to the two attributes the extension reads. */
  datatype Link = Link(rel: string, target: string)

  /** A publication: a DOI with its citation. Equality is field by field. */
  datatype Publication = Publication(doi: string, citation: string)

  /** The mapping form of a publication, as Python's `Dict[str, str]`. */
  type PubDict = map<string, string>

  const DOI_KEY: string := "doi"
  const CITATION_KEY: string := "citation"

  /** `Publication.to_dict`: a two-key mapping. */
  function ToDict(p: Publication): (d: PubDict)
    ensures d.Keys == {DOI_KEY, CITATION_KEY}
  {
    map[DOI_KEY := p.doi, CITATION_KEY := p.citation]
  }

  /**
   * `Publication.from_dict`: reads the two keys, `doi` first, and raises
   * KeyError naming the first one that is missing. Other keys are ignored.
   */
  function FromDict(d: PubDict): (r: Result<Publication>)
    ensures r.Success? <==> DOI_KEY in d && CITATION_KEY in d
    ensures r.Failure? ==> r.error == KeyError(if DOI_KEY !in d then DOI_KEY else CITATION_KEY)
  {
    if DOI_KEY !in d then Failure(KeyError(DOI_KEY))
    else if CITATION_KEY !in d then Failure(KeyError(CITATION_KEY))
    else Success(Publication(d[DOI_KEY], d[CITATION_KEY]))
  }

  /** `Publication.get_link`: the `cite-as` link to the DOI's resolver URL. */
  function GetLink(p: Publication): Link
  {
    Link(CITE_AS, Doi.DoiToUrl(p.doi))
  }

  /** Every publication comes back unchanged from its mapping form. */
  lemma FromDictToDict(p: Publication)
    ensures FromDict(ToDict(p)) == Success(p)
  {
  }

  /** A mapping with exactly the two keys is the mapping form of what it decodes to. */
  lemma ToDictFromDict(d: PubDict)
    requires d.Keys == {DOI_KEY, CITATION_KEY}
    ensures FromDict(d).Success? && ToDict(FromDict(d).value) == d
  {
    var e := ToDict(FromDict(d).value);
    assert forall k :: k in d ==> k in e && e[k] == d[k];
  }

  /** Equal mappings come from equal publications, so comparing mappings compares publications. */
  lemma ToDictInjective(p: Publication, q: Publication)
    ensures ToDict(p) == ToDict(q) <==> p == q
  {
    if ToDict(p) == ToDict(q) {
      assert ToDict(p)[DOI_KEY] == p.doi && ToDict(q)[DOI_KEY] == q.doi;
      assert ToDict(p)[CITATION_KEY] == p.citation && ToDict(q)[CITATION_KEY] == q.citation;
    }
  }

  /** Two publications derive the same link exactly when their DOIs are equal. */
  lemma GetLinkMatchesDoi(p: Publication, q: Publication)
    ensures GetLink(p) == GetLink(q) <==> p.doi == q.doi
  {
    Doi.DoiToUrlInjective(p.doi, q.doi);
  }

  // ---------------------------------------------------------------------
  // Lists of publications.

  /** `[p.to_dict() for p in v]`. */
  function EncodeAll(v: seq<Publication>): (ds: seq<PubDict>)
    ensures |ds| == |v|
    ensures forall i :: 0 <= i < |ds| ==> ds[i].Keys == {DOI_KEY, CITATION_KEY}
  {
    seq(|v|, i requires 0 <= i < |v| => ToDict(v[i]))
  }

  /**
   * `[Publication.from_dict(d) for d in ds]`: decodes in order and stops with
   * the KeyError of the first mapping that lacks a key.
   */
  function DecodeAll(ds: seq<PubDict>): (r: Result<seq<Publication>>)
    ensures r.Success? <==> forall i :: 0 <= i < |ds| ==> FromDict(ds[i]).Success?
    ensures r.Success? ==>
              && |r.value| == |ds|
              && forall i :: 0 <= i < |ds| ==> FromDict(ds[i]) == Success(r.value[i])
    ensures r.Failure? ==>
              exists i :: && 0 <= i < |ds|
                          && FromDict(ds[i]) == Failure(r.error)
                          && forall j :: 0 <= j < i ==> FromDict(ds[j]).Success?
  {
    if ds == [] then Success([])
    else
      match FromDict(ds[0])
      case Failure(e) => Failure(e)
      case Success(p) =>
        match DecodeAll(ds[1..])
        case Failure(e) =>
          ghost var i :| 0 <= i < |ds[1..]| && FromDict(ds[1..][i]) == Failure(e) &&
            forall j :: 0 <= j < i ==> FromDict(ds[1..][j]).Success?;
          assert FromDict(ds[i + 1]) == Failure(e);
          Failure(e)
        case Success(ps) => Success([p] + ps)
  }

  /** The stored form of a list decodes back to the list. */
  lemma DecodeEncode(v: seq<Publication>)
    ensures DecodeAll(EncodeAll(v)) == Success(v)
  {
    var r := DecodeAll(EncodeAll(v));
    assert r.Success?;
    assert r.value == v;
  }

  /** `[p.get_link() for p in v]`: the links a publications assignment appends. */
  function CiteLinks(v: seq<Publication>): seq<Link>
  {
    seq(|v|, i requires 0 <= i < |v| => GetLink(v[i]))
  }

  /** Appending one more publication appends one more link. */
  lemma CiteLinksSnoc(v: seq<Publication>, p: Publication)
    ensures CiteLinks(v + [p]) == CiteLinks(v) + [GetLink(p)]
  {
  }
}
