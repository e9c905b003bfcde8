/**
 * The per-heading preparation that precedes tree building: the default
 * identifier policy, identifier assignment over the matched elements, the
 * mapping of an element to a heading record (tag stripping and level
 * parsing), and the root level of a heading list.
 */
module Headings {
  import opened Wrappers

  /** A heading level, as the tag-name pattern h1 .. h6 yields it. */
  type Level = l: int | 1 <= l <= 6 witness 1

  /**
   * A heading element as the markup parser hands it over: its tag name, its
   * raw inner markup, its `id` attribute ('' when absent) and its
   * `data-href` attribute (None when absent).
   */
  datatype Element = Element(tagName: string, innerHTML: string, id: string, dataHref: Option<string>)

  /** What each element becomes before the tree is built. */
  datatype HeadingRecord = HeadingRecord(id: string, text: string, dataHref: Option<string>, level: Level)

  /** The ways a build fails; in the source each is a thrown TypeError. */
  datatype TocError =
    | BadTagName(tagName: string)  // the tag-name match yields null and `[1]` is read from it
    | AscendPastRoot               // the cursor climbs above the synthetic root and becomes null

  // ---------------------------------------------------------------------------
  // Identifier assignment

  /**
   * The default `slug` option: an existing non-empty id is kept, otherwise the
   * id is the configured prefix followed by the slug of the RAW inner markup.
   * `slug` stands for the separate slug module, which is not part of this model.
   */
  function DefaultSlug(headerIdPrefix: string, slug: string -> string, innerHTML: string, originalId: string): (id: string)
    ensures originalId != "" ==> id == originalId
    ensures originalId == "" ==> id == headerIdPrefix + slug(innerHTML)
  {
    if originalId != "" then originalId else headerIdPrefix + slug(innerHTML)
  }

  /** Running the default policy on its own output changes nothing. */
  lemma DefaultSlugIdempotent(headerIdPrefix: string, slug: string -> string, innerHTML: string, originalId: string)
    ensures var id := DefaultSlug(headerIdPrefix, slug, innerHTML, originalId);
            DefaultSlug(headerIdPrefix, slug, innerHTML, id) == id
  {
  }

  /**
   * Each matched element gets the id `slugFn(innerHTML, id)`; its
   * `data-href` attribute is carried over as it is.
   */
  function AssignIdentifiers(elements: seq<Element>, slugFn: (string, string) -> string): (headers: seq<Element>)
    ensures |headers| == |elements|
    ensures forall i :: 0 <= i < |elements| ==>
              headers[i].id == slugFn(elements[i].innerHTML, elements[i].id) &&
              headers[i].tagName == elements[i].tagName &&
              headers[i].innerHTML == elements[i].innerHTML &&
              headers[i].dataHref == elements[i].dataHref
  {
    seq(|elements|, i requires 0 <= i < |elements| =>
      elements[i].(id := slugFn(elements[i].innerHTML, elements[i].id)))
  }

  /** The slug function as the source's default option builds it. */
  function DefaultSlugFn(headerIdPrefix: string, slug: string -> string): (string, string) -> string
  {
    (innerHTML, originalId) => DefaultSlug(headerIdPrefix, slug, innerHTML, originalId)
  }

  /**
   * Under the default policy, an element with a non-empty id keeps it, one
   * without gets prefix + slug(raw inner markup), and `data-href` plays no
   * part: two element lists that differ only in `data-href` get the same ids.
   */
  lemma {:induction false} AssignDefaultIds(elements: seq<Element>, others: seq<Element>, headerIdPrefix: string, slug: string -> string)
    requires |others| == |elements|
    requires forall i :: 0 <= i < |elements| ==> others[i] == elements[i].(dataHref := others[i].dataHref)
    ensures var headers := AssignIdentifiers(elements, DefaultSlugFn(headerIdPrefix, slug));
            forall i :: 0 <= i < |elements| ==>
              headers[i].id == (if elements[i].id != "" then elements[i].id
                                else headerIdPrefix + slug(elements[i].innerHTML)) &&
              headers[i].id == AssignIdentifiers(others, DefaultSlugFn(headerIdPrefix, slug))[i].id
  {
    var fn := DefaultSlugFn(headerIdPrefix, slug);
    var headers := AssignIdentifiers(elements, fn);
    var otherHeaders := AssignIdentifiers(others, fn);
    forall i | 0 <= i < |elements|
      ensures headers[i].id == (if elements[i].id != "" then elements[i].id
                                else headerIdPrefix + slug(elements[i].innerHTML))
      ensures headers[i].id == otherHeaders[i].id
    {
      assert others[i].innerHTML == elements[i].innerHTML && others[i].id == elements[i].id;
    }
  }

  /** Assigning ids a second time with the default policy changes nothing. */
  lemma {:induction false} AssignDefaultIdsIdempotent(elements: seq<Element>, headerIdPrefix: string, slug: string -> string)
    ensures var fn := DefaultSlugFn(headerIdPrefix, slug);
            AssignIdentifiers(AssignIdentifiers(elements, fn), fn) == AssignIdentifiers(elements, fn)
  {
    var fn := DefaultSlugFn(headerIdPrefix, slug);
    var once := AssignIdentifiers(elements, fn);
    var twice := AssignIdentifiers(once, fn);
    forall i | 0 <= i < |elements|
      ensures twice[i] == once[i]
    {
      DefaultSlugIdempotent(headerIdPrefix, slug, elements[i].innerHTML, elements[i].id);
    }
  }

  // ---------------------------------------------------------------------------
  // Tag stripping: the global replacement of /<[^>]*>/ by ""

  /** No `<` is followed, anywhere later, by a `>`: the tag pattern finds no match. */
  predicate NoTag(s: string)
  {
    forall i, j :: 0 <= i < j < |s| && s[i] == '<' ==> s[j] != '>'
  }

  /** The position of the first `c` in `s`. */
  function FirstIndex(s: string, c: char): (k: nat)
    requires c in s
    ensures k < |s| && s[k] == c && c !in s[..k]
  {
    if s[0] == c then 0
    else
      assert c in s[1..] by { var j :| 0 <= j < |s| && s[j] == c; assert s[1..][j - 1] == c; }
      var k := 1 + FirstIndex(s[1..], c);
      assert s[..k] == [s[0]] + s[1..][..k - 1];
      k
  }

  /**
   * Scanning left to right, each `<` that has a `>` somewhere after it is
   * removed together with everything up to and including the first such `>`;
   * a `<` with no later `>` stays. The result keeps only characters of the
   * input and contains nothing the pattern could match.
   */
  function StripTags(s: string): (r: string)
    ensures |r| <= |s|
    ensures forall c :: c in r ==> c in s
    ensures NoTag(r)
    decreases |s|
  {
    if s == [] then []
    else if s[0] == '<' && '>' in s then StripTags(s[FirstIndex(s, '>') + 1..])
    else
      var rest := StripTags(s[1..]);
      assert s[0] == '<' ==> '>' !in rest;
      [s[0]] + rest
  }

  /** Text without a `<` passes through unchanged, and the rest is stripped on its own. */
  lemma {:induction false} StripTagsPlainPrefix(p: string, s: string)
    requires '<' !in p
    ensures StripTags(p + s) == p + StripTags(s)
    decreases |p|
  {
    if p != [] {
      assert (p + s)[0] == p[0] && (p + s)[1..] == p[1..] + s;
      assert '<' !in p[1..];
      assert p[0] != '<' by { assert p[0] in p; }
      StripTagsPlainPrefix(p[1..], s);
      calc {
        StripTags(p + s);
        [p[0]] + StripTags(p[1..] + s);
        [p[0]] + (p[1..] + StripTags(s));
        { assert p == [p[0]] + p[1..]; }
        p + StripTags(s);
      }
    } else {
      assert p + s == s;
    }
  }

  /** A tag `<t>` whose body holds no `>` is removed as a whole. */
  lemma StripTagsRemovesTag(t: string, s: string)
    requires '>' !in t
    ensures StripTags(['<'] + t + ['>'] + s) == StripTags(s)
  {
    var w := ['<'] + t + ['>'] + s;
    assert w[|t| + 1] == '>';
    var k := FirstIndex(w, '>');
    assert forall m :: 1 <= m < |t| + 1 ==> w[m] == t[m - 1];
    assert k == |t| + 1;
    assert w[k + 1..] == s;
  }

  /** A `<` with no `>` after it is kept, together with everything after it. */
  lemma StripTagsUnclosed(s: string)
    requires s != [] && s[0] == '<' && '>' !in s
    ensures StripTags(s) == s
  {
    StripTagsNoTagFixed(s);
  }

  /** Text the pattern cannot match is its own stripped form. */
  lemma {:induction false} StripTagsNoTagFixed(s: string)
    requires NoTag(s)
    ensures StripTags(s) == s
    decreases |s|
  {
    if s != [] {
      assert NoTag(s[1..]) by {
        forall i, j | 0 <= i < j < |s[1..]| && s[1..][i] == '<'
          ensures s[1..][j] != '>'
        {
          assert s[i + 1] == '<';
        }
      }
      StripTagsNoTagFixed(s[1..]);
      assert s == [s[0]] + s[1..];
    }
  }

  /** Stripping twice is stripping once. */
  lemma StripTagsIdempotent(s: string)
    ensures StripTags(StripTags(s)) == StripTags(s)
  {
    StripTagsNoTagFixed(StripTags(s));
  }

  // ---------------------------------------------------------------------------
  // Level parsing: the digit of a tag name matching /^h([123456])$/i

  /** The level a heading tag name denotes, or None where the case-insensitive match fails. */
  function ParseLevel(tagName: string): (r: Option<Level>)
    ensures r.Some? ==> |tagName| == 2 && tagName == HeadingTag(r.value, tagName[0] == 'H')
  {
    if |tagName| == 2 && (tagName[0] == 'h' || tagName[0] == 'H') && '1' <= tagName[1] <= '6'
    then Some(tagName[1] as int - '0' as int)
    else None
  }

  /** The tag name of a heading of the given level, in lower or upper case. */
  function HeadingTag(level: Level, upper: bool): (tag: string)
    ensures |tag| == 2
  {
    [if upper then 'H' else 'h', ('0' as int + level) as char]
  }

  /** Every heading tag name parses back to its level ... */
  lemma ParseLevelRoundTrip(level: Level, upper: bool)
    ensures ParseLevel(HeadingTag(level, upper)) == Some(level)
  {
  }

  /** ... and only heading tag names parse at all. */
  lemma ParseLevelOnlyHeadingTags(tagName: string)
    requires ParseLevel(tagName).Some?
    ensures tagName == HeadingTag(ParseLevel(tagName).value, tagName[0] == 'H')
  {
    var t := HeadingTag(ParseLevel(tagName).value, tagName[0] == 'H');
    assert t[0] == tagName[0] && t[1] == tagName[1];
  }

  // ---------------------------------------------------------------------------
  // Element to record

  /** The record for one element: same id and data-href, stripped text, parsed level. */
  function ToRecord(e: Element): (r: Result<HeadingRecord, TocError>)
    ensures r.Success? <==> ParseLevel(e.tagName).Some?
    ensures r.Failure? ==> r.error == BadTagName(e.tagName)
    ensures r.Success? ==>
              r.value.id == e.id && r.value.dataHref == e.dataHref &&
              r.value.text == StripTags(e.innerHTML) && Some(r.value.level) == ParseLevel(e.tagName)
  {
    match ParseLevel(e.tagName)
    case None => Failure(BadTagName(e.tagName))
    case Some(level) => Success(HeadingRecord(e.id, StripTags(e.innerHTML), e.dataHref, level))
  }

  /**
   * The records of all elements, in order; the first element whose tag name
   * does not parse stops the mapping with its error.
   */
  function ToRecords(elements: seq<Element>): (r: Result<seq<HeadingRecord>, TocError>)
    ensures r.Success? ==>
              |r.value| == |elements| &&
              forall i :: 0 <= i < |elements| ==> ToRecord(elements[i]) == Success(r.value[i])
    ensures r.Failure? ==>
              exists i :: 0 <= i < |elements| && ToRecord(elements[i]) == Failure(r.error) &&
                          forall j :: 0 <= j < i ==> ToRecord(elements[j]).Success?
    decreases |elements|
  {
    if elements == [] then Success([])
    else
      var first := ToRecord(elements[0]);
      if first.Failure? then Failure(first.error)
      else
        var rest := ToRecords(elements[1..]);
        if rest.Failure? then
          ToRecordsFailureShift(elements, rest.error);
          Failure(rest.error)
        else
          ToRecordsSuccessShift(elements, first.value, rest.value);
          Success([first.value] + rest.value)
  }

  lemma ToRecordsFailureShift(elements: seq<Element>, e: TocError)
    requires elements != [] && ToRecord(elements[0]).Success?
    requires exists i :: 0 <= i < |elements[1..]| && ToRecord(elements[1..][i]) == Failure(e) &&
                         forall j :: 0 <= j < i ==> ToRecord(elements[1..][j]).Success?
    ensures exists i :: 0 <= i < |elements| && ToRecord(elements[i]) == Failure(e) &&
                        forall j :: 0 <= j < i ==> ToRecord(elements[j]).Success?
  {
    var i :| 0 <= i < |elements[1..]| && ToRecord(elements[1..][i]) == Failure(e) &&
             forall j :: 0 <= j < i ==> ToRecord(elements[1..][j]).Success?;
    assert elements[i + 1] == elements[1..][i];
    forall j | 0 <= j < i + 1 ensures ToRecord(elements[j]).Success? {
      if j > 0 { assert elements[j] == elements[1..][j - 1]; }
    }
  }

  lemma ToRecordsSuccessShift(elements: seq<Element>, h: HeadingRecord, rest: seq<HeadingRecord>)
    requires elements != [] && ToRecord(elements[0]) == Success(h)
    requires |rest| == |elements[1..]|
    requires forall i :: 0 <= i < |elements[1..]| ==> ToRecord(elements[1..][i]) == Success(rest[i])
    ensures forall i :: 0 <= i < |elements| ==> ToRecord(elements[i]) == Success(([h] + rest)[i])
  {
    forall i | 0 <= i < |elements| ensures ToRecord(elements[i]) == Success(([h] + rest)[i]) {
      if i > 0 { assert elements[i] == elements[1..][i - 1]; }
    }
  }

  /** When every element maps to its record, the mapping yields exactly those records. */
  lemma ToRecordsAll(elements: seq<Element>, records: seq<HeadingRecord>)
    requires |records| == |elements|
    requires forall i :: 0 <= i < |elements| ==> ToRecord(elements[i]) == Success(records[i])
    ensures ToRecords(elements) == Success(records)
  {
    var r := ToRecords(elements);
    assert r.value == records;
  }

  // ---------------------------------------------------------------------------
  // Root level

  /** The smallest level of a non-empty record list. */
  function MinLevel(headers: seq<HeadingRecord>): (m: Level)
    requires headers != []
    ensures exists i :: 0 <= i < |headers| && headers[i].level == m
    ensures forall i :: 0 <= i < |headers| ==> m <= headers[i].level
    decreases |headers|
  {
    if |headers| == 1 then headers[0].level
    else
      var m := MinLevel(headers[1..]);
      assert forall i :: 1 <= i < |headers| ==> headers[i] == headers[1..][i - 1];
      if headers[0].level <= m then headers[0].level else m
  }

  /**
   * The level of the synthetic root: one less than the shallowest level, but 1
   * (the `|| 1` fallback) when that difference is 0, i.e. when some heading is
   * a level-1 heading. An empty list also gives 1 (NaN || 1).
   */
  function RootLevel(headers: seq<HeadingRecord>): (r: int)
    ensures 1 <= r <= 5
    ensures (exists i :: 0 <= i < |headers| && headers[i].level == 1) ==> r == 1
    ensures headers == [] ==> r == 1
    ensures (headers != [] && forall i :: 0 <= i < |headers| ==> headers[i].level != 1) ==>
              ((forall i :: 0 <= i < |headers| ==> r < headers[i].level) &&
               (exists i :: 0 <= i < |headers| && headers[i].level == r + 1))
  {
    if headers == [] then 1
    else if MinLevel(headers) - 1 != 0 then MinLevel(headers) - 1
    else 1
  }
}
