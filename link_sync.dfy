/**
 * Keeping the `cite-as` links of an Item or Collection in step with its
 * publications: the `remove_link` scan, and what running it once per
 * publication does to the link list.
 */
module LinkSync {
  import opened Sequences
  import opened Publications
  import Doi

  /** The link list of an Item or Collection, a Python list shared by reference. */
  class LinkList {
    var items: seq<Link>

    constructor (items: seq<Link>)
      ensures this.items == items
    {
      this.items := items;
    }
  }

  /**
   * `remove_link`: scans the list from the front and deletes the first link
   * whose rel is `cite-as` and whose target is the publication's DOI URL, that
   * is, the first link equal to `GetLink(pub)`. Without such a link the list
   * is left as it is.
   */
  method RemoveLink(links: LinkList, pub: Publication)
    modifies links
    ensures links.items == RemoveFirst(old(links.items), GetLink(pub))
  {
    var url := Doi.DoiToUrl(pub.doi);
    var i := 0;
    while i < |links.items|
      invariant i <= |links.items|
      invariant links.items == old(links.items)
      invariant forall j :: 0 <= j < i ==> links.items[j] != GetLink(pub)
    {
      var link := links.items[i];
      if link.rel != CITE_AS {
        i := i + 1;
        continue;
      }
      if link.target == url {
        RemoveFirstAt(links.items, GetLink(pub), i);
        links.items := links.items[..i] + links.items[i + 1..];
        return;
      }
      i := i + 1;
    }
    RemoveFirstAbsent(links.items, GetLink(pub));
  }

  /** The links left after `remove_link` has run for each of `pubs`, first to last. */
  function RemoveAll(links: seq<Link>, pubs: seq<Publication>): seq<Link>
    decreases |pubs|
  {
    if pubs == [] then links
    else RemoveFirst(RemoveAll(links, pubs[..|pubs| - 1]), GetLink(pubs[|pubs| - 1]))
  }

  /** The links whose rel is not `cite-as`, in order. */
  function OtherLinks(links: seq<Link>): (r: seq<Link>)
    ensures forall k :: 0 <= k < |r| ==> r[k].rel != CITE_AS
  {
    if links == [] then []
    else (if links[0].rel == CITE_AS then [] else [links[0]]) + OtherLinks(links[1..])
  }

  /** Each removal deletes at most one link. */
  lemma {:induction false} RemoveAllLength(links: seq<Link>, pubs: seq<Publication>)
    ensures |links| - |pubs| <= |RemoveAll(links, pubs)| <= |links|
    decreases |pubs|
  {
    if pubs != [] {
      var before := RemoveAll(links, pubs[..|pubs| - 1]);
      RemoveAllLength(links, pubs[..|pubs| - 1]);
      RemoveFirstSpec(before, GetLink(pubs[|pubs| - 1]));
    }
  }

  /** Removing a `cite-as` link leaves every other kind of link in place and in order. */
  lemma {:induction false} RemoveFirstKeepsOtherLinks(links: seq<Link>, x: Link)
    requires x.rel == CITE_AS
    ensures OtherLinks(RemoveFirst(links, x)) == OtherLinks(links)
  {
    if links != [] && links[0] != x {
      RemoveFirstKeepsOtherLinks(links[1..], x);
      var r := RemoveFirst(links[1..], x);
      assert ([links[0]] + r)[1..] == r;
    }
  }

  /** Clearing publications never touches a link that is not a `cite-as` link. */
  lemma {:induction false} RemoveAllKeepsOtherLinks(links: seq<Link>, pubs: seq<Publication>)
    ensures OtherLinks(RemoveAll(links, pubs)) == OtherLinks(links)
    decreases |pubs|
  {
    if pubs != [] {
      RemoveAllKeepsOtherLinks(links, pubs[..|pubs| - 1]);
      RemoveFirstKeepsOtherLinks(RemoveAll(links, pubs[..|pubs| - 1]), GetLink(pubs[|pubs| - 1]));
    }
  }

  lemma {:induction false} RemoveAllAfterAppendPrefix(links: seq<Link>, v: seq<Publication>, k: nat)
    requires k <= |v|
    requires forall i :: 0 <= i < |v| ==> GetLink(v[i]) !in links
    ensures RemoveAll(links + CiteLinks(v), v[..k]) == links + CiteLinks(v[k..])
  {
    if k == 0 {
      assert v[..0] == [] && v[0..] == v;
    } else {
      RemoveAllAfterAppendPrefix(links, v, k - 1);
      var x := GetLink(v[k - 1]);
      assert v[..k][..k - 1] == v[..k - 1];
      var rest := CiteLinks(v[k - 1..]);
      assert rest == [x] + CiteLinks(v[k..]);
      RemoveFirstAppend(links, rest, x);
    }
  }

  /**
   * Removing the links of freshly assigned publications, in order, restores
   * the list exactly, provided none of those links was already present.
   */
  lemma RemoveAllAfterAppend(links: seq<Link>, v: seq<Publication>)
    requires forall i :: 0 <= i < |v| ==> GetLink(v[i]) !in links
    ensures RemoveAll(links + CiteLinks(v), v) == links
  {
    RemoveAllAfterAppendPrefix(links, v, |v|);
    assert v[..|v|] == v;
    assert links + CiteLinks(v[|v|..]) == links;
  }

  lemma {:induction false} RemoveAllAfterAppendMultisetPrefix(links: seq<Link>, v: seq<Publication>, k: nat)
    requires k <= |v|
    ensures multiset(RemoveAll(links + CiteLinks(v), v[..k])) == multiset(links) + multiset(CiteLinks(v[k..]))
  {
    if k == 0 {
      assert v[..0] == [] && v[0..] == v;
    } else {
      var all := links + CiteLinks(v);
      var x := GetLink(v[k - 1]);
      var before := RemoveAll(all, v[..k - 1]);
      var a, b := multiset(links), multiset(CiteLinks(v[k..]));
      RemoveAllAfterAppendMultisetPrefix(links, v, k - 1);
      assert CiteLinks(v[k - 1..]) == [x] + CiteLinks(v[k..]);
      assert multiset(before) == a + (multiset{x} + b);
      assert v[..k][..k - 1] == v[..k - 1];
      assert RemoveAll(all, v[..k]) == RemoveFirst(before, x);
      RemoveFirstPresentMultiset(before, x, a, b);
    }
  }

  lemma RemoveFirstPresentMultiset(s: seq<Link>, x: Link, a: multiset<Link>, b: multiset<Link>)
    requires multiset(s) == a + (multiset{x} + b)
    ensures multiset(RemoveFirst(s, x)) == a + b
  {
    assert x in multiset(s);
    RemoveFirstMultiset(s, x);
  }

  /**
   * Whatever links were there before, removing the links of freshly assigned
   * publications leaves the same links, counted with multiplicity: only the
   * positions of equal links can differ.
   */
  lemma RemoveAllAfterAppendMultiset(links: seq<Link>, v: seq<Publication>)
    ensures multiset(RemoveAll(links + CiteLinks(v), v)) == multiset(links)
  {
    RemoveAllAfterAppendMultisetPrefix(links, v, |v|);
    assert v[..|v|] == v;
    assert CiteLinks(v[|v|..]) == [];
  }
}
