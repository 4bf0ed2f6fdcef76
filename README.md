# pystac scientific extension, modelled in Dafny

This project models the scientific-citation extension of pystac
(`pystac/extensions/scientific.py`). The extension gives STAC Items and
Collections a DOI (`sci:doi`), a citation (`sci:citation`) and a list of
related publications (`sci:publications`). It keeps these fields in step with
`cite-as` links in the object's link list.

The model has these layers:

- **DOI helpers** (`doi.dfy`). `IsDoiValid` is a character-level matcher for
  the pattern `10[.][0-9]{4}([.][0-9]+)*/.+`, matched at the start of the
  string as `re.match` does. It is proved equivalent to `MatchesDoiPattern`,
  a direct description of that pattern's language. `DoiToUrl` is the prefix
  `https://doi.org/` followed by `Quote(doi)`.
- **`urllib.parse.quote`** (`percent_encoding.dfy`). This is the library
  function `doi_to_url` calls. The model encodes the DOI as UTF-8 and writes
  every byte as `%XX`, except the unreserved characters of section 2.3 of
  RFC 3986 and `/`. Percent-decoding and UTF-8 decoding are given as left inverses of the
  two encoding steps. The UTF-8 decoder also accepts overlong forms, so it is
  not a validating decoder.
  With them, quoting is proved injective, so two links have the same target
  exactly when their DOIs are equal.
- **Publication** (`publications.dfy`). A value with `doi` and `citation`.
  `ToDict`/`FromDict` are its mapping form (`FromDict` raises KeyError, `doi`
  checked first) and `GetLink` is its `cite-as` link. `EncodeAll`/`DecodeAll`
  are the list comprehensions of the `publications` property.
- **remove_link** (`link_sync.dfy`). `RemoveLink` is the in-place scan over a
  `LinkList` object. A link is modelled as a `(rel, target)` pair, so "rel is
  `cite-as` and target is the DOI URL" is the same as "equals
  `GetLink(pub)`". The scan is therefore proved to compute
  `Sequences.RemoveFirst`. Python's `list.remove` on the stored mappings is
  `RemoveFirst` too. `RemoveAll` is `remove_link` run once per publication.
- **The adapters** (`scientific.dfy`). `ScientificItemExt` (lines 82-152) and
  `ScientificCollectionExt` (lines 155-228) run the same code: the first over
  `item.properties`, the second over `collection.extra_fields`. One class,
  `ScientificExt`, models both. It works over a `Host` that holds the three
  `sci:` entries (None when the key is absent) and the link list. Every row
  below cites the Item variant. The Collection variant has the same code at
  lines 157-228, shifted as follows:
  - the constructor and `apply` (157-169) are 73 lines further down;
  - the `doi` and `citation` properties (180-196) are 74 lines down;
  - the `publications` getter (198-202, reflowed over five lines) is 74 lines down;
  - the `publications` setter and `remove_publication` (204-228) are 76 lines down.

  The getters `GetDoi`, `GetCitation` and
  `GetPublications` are plain reads with no contract of their own. The
  setters' postconditions are stated through them: `SetDoi` reads back its
  value, and `SetPublications` reads back `v`.
- **Scenarios** (`scenarios.dfy`). Sequences of adapter calls, proved from the
  adapter's contracts alone.

Some behaviour of the code is easy to miss. The model keeps it as written:

- Setting `publications` to `[]` directly stores an empty list. Only `apply`
  (which skips an empty list) and `remove_publication` (which deletes a list
  left empty) avoid storing one. `RemovePublication` guarantees this only on
  normal return. A ValueError keeps the stored list as it was, which may
  already be empty.
- A stored DOI is not guaranteed to keep a matching link.
  `remove_publication(pub)` deletes the first `cite-as` link to `pub`'s URL.
  That may be the link that setting `doi` added, even when `pub` is not
  stored and ValueError follows (`NonAtomicRemoval`).
- `remove_publication()` with no argument decodes the stored list first.
  If a stored mapping lacks a key, KeyError is raised before any link is
  removed.
- `quote` leaves `~` unescaped, as Python 3.7 and later do.

## Model

| member | source | states |
|---|---|---|
| `Doi.DigitRun` | pystac/extensions/scientific.py:30 | the length of the maximal leading run of ASCII digits: all of it is digits and the next character is not |
| `Doi.MatchGroupsThenSuffixSound` | pystac/extensions/scientific.py:30 | everything the deterministic matcher for `([.][0-9]+)*/.+` accepts is in the pattern's language |
| `Doi.MatchGroupsThenSuffixComplete` | pystac/extensions/scientific.py:30 | everything in the pattern's language is accepted: taking each digit group whole loses no match |
| `Doi.MatchGroupsThenSuffixCorrect` | pystac/extensions/scientific.py:30 | matcher and pattern language agree in both directions |
| `Doi.FirstGroupRun` | pystac/extensions/scientific.py:30 | a digit group followed by `.` or `/` is read whole |
| `Doi.IsDoiValid` | pystac/extensions/scientific.py:38-39 | true exactly when the string starts with `10.`, four digits, zero or more `.digits` groups, `/` and a non-newline character; trailing text is allowed |
| `Doi.DoiToUrl` | pystac/extensions/scientific.py:42-43 | the URL starts with `https://doi.org/` and the rest is the quoted DOI |
| `Doi.DoiToUrlVerbatim` | pystac/extensions/scientific.py:42-43 | a DOI made only of unreserved characters and `/` appears after the prefix unchanged |
| `Doi.DoiToUrlInjective` | pystac/extensions/scientific.py:42-43 | two DOIs give the same URL exactly when they are equal |
| `DoiExamples.DoiHandbookIsValid` | pystac/extensions/scientific.py:38-39 | `10.1000/182` is valid |
| `DoiExamples.DoiHandbookUrl` | pystac/extensions/scientific.py:42-43 | `10.1000/182` becomes `https://doi.org/10.1000/182` |
| `DoiExamples.SubGroupsAreValid` | pystac/extensions/scientific.py:30-39 | `10.1000.5.12/x` is valid: sub-groups after the registrant are accepted |
| `DoiExamples.MalformedAreInvalid` | pystac/extensions/scientific.py:30-39 | `10.1/182`, `10.12345/x`, `not-a-doi`, `10.1000/` and `10.1000/` followed by a newline are all rejected |
| `PercentEncoding.Utf8` | pystac/extensions/scientific.py:43 | the UTF-8 form of a character is 1 to 4 bytes, one byte exactly for ASCII, with continuation bytes after the first |
| `PercentEncoding.Quote` | pystac/extensions/scientific.py:43 | `parse.quote(doi)` with `safe='/'`, character by character; it has no contract of its own, and QuoteLength, QuoteSafeIdentity, QuoteAppend, QuoteOutputAlphabet and QuoteInjective describe it |
| `PercentEncoding.QuoteLength` | pystac/extensions/scientific.py:43 | quoting never shortens a string and at most multiplies its length by twelve, and it keeps the length exactly when every character is safe |
| `PercentEncoding.QuoteSafeIdentity` | pystac/extensions/scientific.py:43 | quoting leaves a string of unreserved characters and `/` unchanged |
| `PercentEncoding.QuoteAppend` | pystac/extensions/scientific.py:43 | quoting works character by character: it distributes over concatenation |
| `PercentEncoding.QuoteOutputAlphabet` | pystac/extensions/scientific.py:43 | the output holds only safe characters, `%` and upper-case hex digits |
| `PercentEncoding.PercentBytesAlphabet` | pystac/extensions/scientific.py:43 | an escaped byte run holds only `%` and upper-case hex digits |
| `PercentEncoding.PercentDecodeByte` | pystac/extensions/scientific.py:43 | decoding `%XX` gives back its byte |
| `PercentEncoding.PercentDecodeBytes` | pystac/extensions/scientific.py:43 | decoding a run of `%XX` escapes gives back the bytes, whatever follows |
| `PercentEncoding.PercentDecodeQuote` | pystac/extensions/scientific.py:43 | percent-decoding a quoted string gives its UTF-8 bytes |
| `PercentEncoding.Utf8CharRoundTrip` | pystac/extensions/scientific.py:43 | the lead byte of a character's encoding gives its length, and the bytes give back its code point |
| `PercentEncoding.Utf8DecodeEncode` | pystac/extensions/scientific.py:43 | UTF-8 decoding inverts UTF-8 encoding |
| `PercentEncoding.QuoteInjective` | pystac/extensions/scientific.py:43 | different strings are quoted differently |
| `Publications.ToDict` | pystac/extensions/scientific.py:61-62 | the mapping has exactly the keys `doi` and `citation` |
| `Publications.FromDict` | pystac/extensions/scientific.py:64-66 | succeeds exactly when both keys are present; otherwise KeyError naming `doi` if it is missing, else `citation` |
| `Publications.FromDictToDict` | pystac/extensions/scientific.py:61-66 | every publication round-trips through its mapping |
| `Publications.ToDictFromDict` | pystac/extensions/scientific.py:61-66 | a mapping with exactly the two keys round-trips through a publication |
| `Publications.ToDictInjective` | pystac/extensions/scientific.py:52-56 | mappings are equal exactly when the publications are equal field by field |
| `Publications.GetLink` | pystac/extensions/scientific.py:68-69 | `get_link`: the `cite-as` link to the DOI's URL; it has no contract of its own, and GetLinkMatchesDoi and DoiToUrlInjective state that equal links mean equal DOIs |
| `Publications.GetLinkMatchesDoi` | pystac/extensions/scientific.py:68-69 | two publications derive the same `cite-as` link exactly when their DOIs are equal |
| `Publications.DecodeAll` | pystac/extensions/scientific.py:124-126 | succeeds exactly when every mapping decodes, giving them in order; otherwise the error of the first mapping that fails |
| `Publications.EncodeAll` | pystac/extensions/scientific.py:130 | `[pub.to_dict() for pub in v]`: one mapping per publication, each with exactly the keys `doi` and `citation`; DecodeEncode states that they read back as `v` |
| `Publications.DecodeEncode` | pystac/extensions/scientific.py:124-130 | a list stored by the setter reads back as the same list |
| `Publications.CiteLinksSnoc` | pystac/extensions/scientific.py:131-132 | one more publication appends one more link, its own |
| `Sequences.RemoveFirst` | pystac/extensions/scientific.py:74-79 | the list with its first occurrence of the value deleted, as both the scan in `remove_link` and `list.remove` at line 149 do; it has no contract of its own, and RemoveFirstSpec, RemoveFirstCount, RemoveFirstKeepsOthers and RemoveFirstMultiset describe it |
| `Sequences.IndexOf` | pystac/extensions/scientific.py:74-78 | the position of the first match: it matches and no earlier element does |
| `Sequences.RemoveFirstAt` | pystac/extensions/scientific.py:74-79 | a front-to-back scan that deletes at the first match computes RemoveFirst |
| `Sequences.RemoveFirstAbsent` | pystac/extensions/scientific.py:74-79 | without a match nothing is deleted |
| `Sequences.RemoveFirstSpec` | pystac/extensions/scientific.py:72-79 | with a match, exactly the element at the first match goes and the length drops by one; otherwise the list is unchanged |
| `Sequences.RemoveFirstCount` | pystac/extensions/scientific.py:77-79 | exactly one occurrence of the value is removed when there is one |
| `Sequences.RemoveFirstKeepsOthers` | pystac/extensions/scientific.py:77-79 | all other elements stay, in their order |
| `Sequences.RemoveFirstMultiset` | pystac/extensions/scientific.py:149 | as a multiset, one copy of the value is taken away when present |
| `Sequences.RemoveFirstAppend` | pystac/extensions/scientific.py:74-79 | a prefix without the value is left as it is |
| `LinkSync.RemoveLink` | pystac/extensions/scientific.py:72-79 | `remove_link` deletes in place the first link with rel `cite-as` and the DOI's URL as target, and leaves the list alone when there is none |
| `LinkSync.RemoveAll` | pystac/extensions/scientific.py:140-141 | `remove_link` run once for each stored publication, first to last; it has no contract of its own, and RemoveAllLength, RemoveAllKeepsOtherLinks and RemoveAllAfterAppend(Multiset) describe it |
| `LinkSync.RemoveAllLength` | pystac/extensions/scientific.py:140-141 | running `remove_link` for n publications removes at most n links |
| `LinkSync.RemoveFirstKeepsOtherLinks` | pystac/extensions/scientific.py:75-76 | removing a `cite-as` link never touches a link of another rel |
| `LinkSync.RemoveAllKeepsOtherLinks` | pystac/extensions/scientific.py:140-141 | clearing publications keeps every non-`cite-as` link, in order |
| `LinkSync.RemoveAllAfterAppendPrefix` | pystac/extensions/scientific.py:128-144 | removing the first k freshly appended links leaves the rest of them |
| `LinkSync.RemoveAllAfterAppend` | pystac/extensions/scientific.py:128-144 | removing the links of freshly assigned publications restores the list when none of them was there before |
| `LinkSync.RemoveFirstPresentMultiset` | pystac/extensions/scientific.py:77-79 | removing a present link takes one copy of it away |
| `LinkSync.RemoveAllAfterAppendMultisetPrefix` | pystac/extensions/scientific.py:128-144 | after k removals the remaining appended links are still counted |
| `LinkSync.RemoveAllAfterAppendMultiset` | pystac/extensions/scientific.py:128-144 | removing the links of freshly assigned publications always restores the same links, counted with multiplicity |
| `Scientific.Host.AddLink` | pystac/extensions/scientific.py:114 | `add_link` appends the link at the end |
| `Scientific.IsTruthy` | pystac/extensions/scientific.py:91-94 | Python's truth value of an optional string: present and not `""`; the Apply contract uses it for its `doi` and `citation` guards |
| `Scientific.IsNonEmpty` | pystac/extensions/scientific.py:95-96 | Python's truth value of an optional list: present and not empty; the Apply contract uses it for its `publications` guard |
| `Scientific.Shrunk` | pystac/extensions/scientific.py:151-152 | a list left empty is deleted, never stored as `[]` |
| `Scientific.ScientificExt.constructor` | pystac/extensions/scientific.py:84-85 | the adapter is bound to its host and holds nothing else |
| `Scientific.ScientificExt.GetDoi` | pystac/extensions/scientific.py:106-108 | the stored DOI, None when the key is absent, as `properties.get(DOI)`; it has no contract of its own, and SetDoi and Apply state what it reads after each change |
| `Scientific.ScientificExt.GetCitation` | pystac/extensions/scientific.py:116-118 | the stored citation, None when the key is absent; it has no contract of its own, and SetCitation and Apply state what it reads after each change |
| `Scientific.ScientificExt.GetPublications` | pystac/extensions/scientific.py:124-126 | the stored list decoded by DecodeAll, Success([]) when the key is absent; it has no contract of its own, and SetPublications and DecodeEncode state that it reads back what the setter stored |
| `Scientific.ScientificExt.SetDoi` | pystac/extensions/scientific.py:110-114 | stores the DOI and appends one `cite-as` link to its URL, removing none; other fields unchanged |
| `Scientific.ScientificExt.SetCitation` | pystac/extensions/scientific.py:120-122 | stores the citation and changes nothing else |
| `Scientific.ScientificExt.SetPublications` | pystac/extensions/scientific.py:128-132 | overwrites the stored list with the mapping forms, which read back as `v`, and appends one link per publication in order |
| `Scientific.ScientificExt.Apply` | pystac/extensions/scientific.py:87-96 | calls a setter only for a present, non-empty argument; resulting fields and appended links in order |
| `Scientific.ScientificExt.RemovePublication` | pystac/extensions/scientific.py:135-152 | no-op without the key; clear-all removes each stored publication's link then deletes the key; a targeted call removes the link first, then the first equal mapping or raises ValueError with the link change kept; never leaves `[]` on normal return |
| `ScientificScenarios.RepeatedDoiAccumulates` | pystac/extensions/scientific.py:110-114 | setting the same DOI twice leaves two identical `cite-as` links |
| `ScientificScenarios.ClearUndoesSetPublications` | pystac/extensions/scientific.py:128-144 | setting publications then clearing them deletes the key and restores the link list |
| `ScientificScenarios.TargetedRemoval` | pystac/extensions/scientific.py:128-152 | after setting `[a, b]` on a host with no links, removing `a` leaves `[b]` stored and only b's link |
| `ScientificScenarios.NonAtomicRemoval` | pystac/extensions/scientific.py:110-152 | on a freshly constructed host, setting `doi` and `[q]` and then removing an unstored publication with the same DOI raises ValueError after deleting the link that setting `doi` added, leaving only q's link |

## Left out

- Extension registration (`SCIENTIFIC_EXTENSION_DEFINITION`, lines 231-234), the `base.ItemExtension` and `base.CollectionExtension` base classes, `from_item`/`from_collection` and `_object_links` (lines 98-104, 171-178): this is dispatch into pystac's extension machinery, which is not part of this model.
- `Publication.__repr__` (line 58-59) is text formatting only. `__eq__` returning NotImplemented for a non-Publication operand is not modelled, because the model only compares publications with each other.
- The lookup through `self.item.ext.scientific` at line 140 (`self.collection.ext.scientific` at line 216) is modelled as a direct read of the same host's stored list.
- pystac's `Item`, `Collection` and `Link` are not part of this model. A link is only its `rel` and `target`, and `add_link` only appends; setting the link's owner is not modelled. A link target that is a STAC object rather than a string is not modelled.
- The field dictionaries are modelled only through their three `sci:` keys. Every other key is untouched by construction. Stored values of other types than the ones the setters write (a non-string DOI, list entries that are not string-to-string mappings) are not modelled.
- The stored publications list is a value here. Python's `list.remove` at line 149 changes the list object in place, which another holder of that list would see; that aliasing is not modelled.
- `copy.deepcopy` in `to_dict` (line 62) is the identity on these immutable values.
- Python strings may contain lone surrogates, which make `quote` raise UnicodeEncodeError; Dafny characters are Unicode scalar values, so that error path is not modelled.
