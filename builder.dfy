/**
 * The table-of-contents builder. The source walks the headings with a cursor
 * `toc` into a tree of mutable nodes, climbing through `parent` and
 * descending into new nodes. Here the cursor's ancestry is an explicit path of
 * open nodes: `path[0]` is the synthetic root and `Last(path)` is the cursor.
 * Each open node holds the children finished so far. The node below it on the
 * path is still open and is added to its children only when the cursor climbs
 * out of it.
 */
module Builder {
  import opened Wrappers
  import opened Headings
  import opened TocTree

  /**
   * The node `path[0]` becomes once every open node below it is closed: each
   * node on the path ends up as the last child of the one above it.
   */
  function Close(path: seq<TocNode>): (n: TocNode)
    requires path != []
    ensures n == path[0].(children := n.children)
    decreases |path|
  {
    if |path| == 1 then path[0]
    else path[0].(children := path[0].children + [Close(path[1..])])
  }

  /** `toc = toc.parent`: the cursor node is finished and added as the last child of its parent. */
  function Ascend(path: seq<TocNode>): (up: seq<TocNode>)
    requires |path| >= 2
    ensures |up| == |path| - 1
  {
    var parent := path[|path| - 2];
    path[..|path| - 2] + [parent.(children := parent.children + [Last(path)])]
  }

  /** Climbing changes where the cursor is, not the tree the path denotes. */
  lemma {:induction false} AscendKeepsTree(path: seq<TocNode>)
    requires |path| >= 2
    ensures Close(Ascend(path)) == Close(path)
    decreases |path|
  {
    if |path| > 2 {
      AscendKeepsTree(path[1..]);
      assert Ascend(path)[0] == path[0];
      assert Ascend(path)[1..] == Ascend(path[1..]);
    }
  }

  /** `toc.add(node); toc = node`: attaching at the cursor is inserting at depth |path|. */
  lemma {:induction false} AttachIsInsert(path: seq<TocNode>, n: TocNode)
    requires path != []
    ensures Close(path + [n]).children == Insert(Close(path).children, |path|, n)
    decreases |path|
  {
    if |path| == 1 {
      assert (path + [n])[1..] == [n];
    } else {
      assert (path + [n])[1..] == path[1..] + [n];
      AttachIsInsert(path[1..], n);
    }
  }

  /**
   * Descending into a new placeholder below a cursor that has no children
   * yet is what inserting deeper than the cursor does on its own.
   */
  lemma {:induction false} DescendIsInsert(path: seq<TocNode>, depth: nat, n: TocNode)
    requires path != [] && Last(path).children == [] && depth > |path|
    ensures Insert(Close(path + [Placeholder([])]).children, depth, n) == Insert(Close(path).children, depth, n)
    decreases |path|
  {
    var p := Placeholder([]);
    if |path| == 1 {
      assert (path + [p])[1..] == [p];
      assert Close(path + [p]).children == [] + [p];
      InsertUnderLast([], p, depth, n);
    } else {
      var tail := path[1..];
      assert (path + [p])[0] == path[0] && (path + [p])[1..] == tail + [p];
      assert Last(tail) == Last(path);
      DescendIsInsert(tail, depth - 1, n);
      var below, below' := Close(tail), Close(tail + [p]);
      assert (tail + [p])[0] == tail[0];
      assert Close(path).children == path[0].children + [below];
      assert Close(path + [p]).children == path[0].children + [below'];
      InsertUnderLast(path[0].children, below, depth, n);
      InsertUnderLast(path[0].children, below', depth, n);
    }
  }

  /** What building the table of contents for `headers` yields. */
  function TocFor(headers: seq<Element>): (r: Result<seq<TocNode>, TocError>)
    ensures headers == [] ==> r == Success([])
    ensures r.Failure? ==>
              r.error == AscendPastRoot ||
              exists i :: 0 <= i < |headers| && r.error == BadTagName(headers[i].tagName)
  {
    if headers == [] then Success([])
    else
      match ToRecords(headers)
      case Failure(e) => Failure(e)
      case Success(records) => Forest(records, RootLevel(records))
  }

  /**
   * buildTocItems: an empty header list gives an empty forest; otherwise the
   * headers are mapped to records, the root level is computed and the records
   * are walked by BuildFromRecords.
   */
  method BuildTocItems(headers: seq<Element>) returns (r: Result<seq<TocNode>, TocError>)
    ensures r == TocFor(headers)
  {
    if |headers| == 0 {
      return Success([]);
    }
    var parsed := ToRecords(headers);
    if parsed.Failure? {
      return Failure(parsed.error);
    }
    var records := parsed.value;
    var rootLevel := RootLevel(records);
    r := BuildFromRecords(records, rootLevel);
  }

  /**
   * The walk of buildTocItems over its records, with the cursor and
   * `lastLevel`: it climbs while the next heading is not deeper than the
   * cursor, adds empty placeholders while it is more than one level deeper,
   * and attaches one entry per heading. Returns the root's children.
   */
  method BuildFromRecords(records: seq<HeadingRecord>, rootLevel: int) returns (r: Result<seq<TocNode>, TocError>)
    ensures r == Forest(records, rootLevel)
  {
    var path: seq<TocNode> := [Placeholder([])];
    var lastLevel := rootLevel;
    var i := 0;
    while i < |records|
      invariant 0 <= i <= |records|
      invariant path != [] && lastLevel == rootLevel + |path| - 1
      invariant Last(path).children == []
      invariant Forest(records[..i], rootLevel) == Success(Close(path).children)
    {
      var h := records[i];
      ghost var before := Close(path).children;
      ghost var depth := h.level - rootLevel;
      while h.level != 1 + lastLevel
        invariant path != [] && lastLevel == rootLevel + |path| - 1
        invariant |path| < depth ==> Last(path).children == []
        invariant depth >= 1 ==> Insert(Close(path).children, depth, ItemOf(h)) == Insert(before, depth, ItemOf(h))
        decreases if h.level <= lastLevel then lastLevel + 1 - h.level else h.level - lastLevel - 1
      {
        if h.level < 1 + lastLevel {
          if |path| == 1 {
            // the root's parent is null: the source fails on its next use of the cursor
            ForestStep(records, i, rootLevel);
            ForestFailurePersists(records, i + 1, rootLevel);
            assert records[..|records|] == records;
            return Failure(AscendPastRoot);
          }
          AscendKeepsTree(path);
          path := Ascend(path);
          lastLevel := lastLevel - 1;
        } else {
          DescendIsInsert(path, depth, ItemOf(h));
          path := path + [Placeholder([])];
          lastLevel := lastLevel + 1;
        }
      }
      AttachIsInsert(path, ItemOf(h));
      ForestStep(records, i, rootLevel);
      path := path + [ItemOf(h)];
      lastLevel := h.level;
      i := i + 1;
    }
    assert records[..i] == records;
    while |path| > 1
      invariant path != [] && Forest(records, rootLevel) == Success(Close(path).children)
    {
      AscendKeepsTree(path);
      path := Ascend(path);
    }
    return Success(path[0].children);
  }

  // ---------------------------------------------------------------------------
  // What the whole build promises

  /**
   * A non-empty build fails exactly when some tag name is not h1 .. h6 (in
   * either case) or some heading is a level-1 heading.
   */
  lemma TocForFailsIff(headers: seq<Element>)
    ensures TocFor(headers).Failure? <==>
            exists i :: 0 <= i < |headers| &&
              (ParseLevel(headers[i].tagName).None? || ParseLevel(headers[i].tagName) == Some(1))
  {
    if headers != [] {
      var parsed := ToRecords(headers);
      if parsed.Success? {
        var records := parsed.value;
        ForestFailsIffLevelOne(records);
        assert forall i :: 0 <= i < |headers| ==> ParseLevel(headers[i].tagName) == Some(records[i].level);
      }
    }
  }

  /**
   * `visits` lists the headings one for one, in order: each visit has its
   * heading's id, stripped text and data-href, and a depth that puts the
   * heading's level `rootLevel` below the root.
   */
  predicate ListsHeadings(visits: seq<Visit>, headers: seq<Element>, rootLevel: int)
  {
    |visits| == |headers| &&
    forall i :: 0 <= i < |headers| ==>
      visits[i].id == headers[i].id &&
      visits[i].text == StripTags(headers[i].innerHTML) &&
      visits[i].dataHref == headers[i].dataHref &&
      Some(visits[i].depth + rootLevel) == ParseLevel(headers[i].tagName)
  }

  /**
   * A successful build lists every heading once, in document order, when its
   * forest is walked in pre-order with placeholders skipped: with the heading's
   * id, its inner markup stripped of tags, its data-href, and at depth
   * `level - rootLevel`.
   */
  lemma TocForWalk(headers: seq<Element>)
    requires TocFor(headers).Success?
    ensures headers != [] ==> ToRecords(headers).Success?
    ensures ListsHeadings(Walk(TocFor(headers).value, 1), headers, RootLevel(ToRecords(headers).value))
  {
    if headers != [] {
      var records := ToRecords(headers).value;
      var rootLevel := RootLevel(records);
      assert TocFor(headers) == Forest(records, rootLevel);
      RecordsWalk(headers, records, rootLevel);
    }
  }

  /** TocForWalk for a given list of records and root level. */
  lemma RecordsWalk(headers: seq<Element>, records: seq<HeadingRecord>, rootLevel: int)
    requires ToRecords(headers) == Success(records)
    requires Forest(records, rootLevel).Success?
    ensures ListsHeadings(Walk(Forest(records, rootLevel).value, 1), headers, rootLevel)
  {
    ForestWalk(records, rootLevel);
    VisitsListHeadings(Walk(Forest(records, rootLevel).value, 1), headers, records, rootLevel);
  }

  /** Visits that mirror the records one for one list the elements those records came from. */
  lemma VisitsListHeadings(visits: seq<Visit>, headers: seq<Element>, records: seq<HeadingRecord>, rootLevel: int)
    requires ToRecords(headers) == Success(records)
    requires |visits| == |records|
    requires forall i :: 0 <= i < |records| ==>
               visits[i] == Visit(records[i].level - rootLevel, records[i].id, records[i].text, records[i].dataHref)
    ensures ListsHeadings(visits, headers, rootLevel)
  {
    forall i | 0 <= i < |headers|
      ensures visits[i].id == headers[i].id
      ensures visits[i].text == StripTags(headers[i].innerHTML)
      ensures visits[i].dataHref == headers[i].dataHref
      ensures Some(visits[i].depth + rootLevel) == ParseLevel(headers[i].tagName)
    {
      var e, h := headers[i], records[i];
      assert ToRecord(e) == Success(h);
      assert visits[i] == Visit(h.level - rootLevel, h.id, h.text, h.dataHref);
      assert Some(h.level) == ParseLevel(e.tagName);
    }
  }

  // ---------------------------------------------------------------------------
  // Worked examples

  function Heading(tagName: string, text: string): Element
  {
    Element(tagName, text, "", None)
  }

  lemma StripPlainLetter(c: char)
    requires c != '<'
    ensures StripTags([c]) == [c]
  {
    assert [c][1..] == [];
  }

  /** Levels 2, 3, 3, 2 give two top-level entries, the first holding the two level-3 entries. */
  lemma ExampleSiblings()
    ensures TocFor([Heading("h2", "A"), Heading("h3", "B"), Heading("h3", "C"), Heading("h2", "D")]) ==
            Success([Item("", "A", None, [Item("", "B", None, []), Item("", "C", None, [])]),
                     Item("", "D", None, [])])
  {
    StripPlainLetter('A');
    StripPlainLetter('B');
    StripPlainLetter('C');
    StripPlainLetter('D');
    var a, b := HeadingRecord("", "A", None, 2), HeadingRecord("", "B", None, 3);
    var c, d := HeadingRecord("", "C", None, 3), HeadingRecord("", "D", None, 2);
    ToRecordsAll([Heading("h2", "A"), Heading("h3", "B"), Heading("h3", "C"), Heading("h2", "D")], [a, b, c, d]);
    assert RootLevel([a, b, c, d]) == 1;
    SiblingsForest(a, b, c, d);
  }

  lemma SiblingsForest(a: HeadingRecord, b: HeadingRecord, c: HeadingRecord, d: HeadingRecord)
    requires a.level == 2 && b.level == 3 && c.level == 3 && d.level == 2
    ensures Forest([a, b, c, d], 1) == Success([ItemOf(a).(children := [ItemOf(b), ItemOf(c)]), ItemOf(d)])
  {
    var A, B, C, D := ItemOf(a), ItemOf(b), ItemOf(c), ItemOf(d);
    ForestSnoc([], a, 1);
    assert [] + [a] == [a] && Insert([], 1, A) == [A];
    ForestSnoc([a], b, 1);
    assert [a] + [b] == [a, b];
    var AB := A.(children := [B]);
    assert Insert([A], 2, B) == [AB] by {
      InsertUnderLast([], A, 2, B);
      assert A.children == [] && Insert([], 1, B) == [B];
      assert [] + [A] == [A] && [] + [AB] == [AB];
    }
    ForestSnoc([a, b], c, 1);
    assert [a, b] + [c] == [a, b, c];
    var ABC := A.(children := [B, C]);
    assert Insert([AB], 2, C) == [ABC] by {
      InsertUnderLast([], AB, 2, C);
      assert AB.children == [B] && Insert([B], 1, C) == [B, C];
      assert [] + [AB] == [AB] && [] + [ABC] == [ABC];
    }
    ForestSnoc([a, b, c], d, 1);
    assert [a, b, c] + [d] == [a, b, c, d] && Insert([ABC], 1, D) == [ABC, D];
  }

  /** Levels 2, 4 put one placeholder between the two entries. */
  lemma ExampleGap()
    ensures TocFor([Heading("h2", "A"), Heading("h4", "B")]) ==
            Success([Item("", "A", None, [Placeholder([Item("", "B", None, [])])])])
  {
    StripPlainLetter('A');
    StripPlainLetter('B');
    var a, b := HeadingRecord("", "A", None, 2), HeadingRecord("", "B", None, 4);
    ToRecordsAll([Heading("h2", "A"), Heading("h4", "B")], [a, b]);
    assert RootLevel([a, b]) == 1;
    GapForest(a, b);
  }

  lemma GapForest(a: HeadingRecord, b: HeadingRecord)
    requires a.level == 2 && b.level == 4
    ensures Forest([a, b], 1) == Success([ItemOf(a).(children := [Placeholder([ItemOf(b)])])])
  {
    var A, B := ItemOf(a), ItemOf(b);
    ForestSnoc([], a, 1);
    assert [] + [a] == [a] && Insert([], 1, A) == [A];
    ForestSnoc([a], b, 1);
    assert [a] + [b] == [a, b];
    var P := Placeholder([B]);
    assert Insert([], 1, B) == [B];
    assert Insert([], 2, B) == [P];
    var AP := A.(children := [P]);
    assert Insert([A], 3, B) == [AP] by {
      InsertUnderLast([], A, 3, B);
      assert A.children == [];
      assert [] + [A] == [A] && [] + [AP] == [AP];
    }
  }

  /** Two level-1 headings do not give two siblings: the first one already sends the cursor above the root. */
  lemma ExampleLevelOne()
    ensures TocFor([Heading("h1", "A"), Heading("h1", "B")]) == Failure(AscendPastRoot)
  {
    StripPlainLetter('A');
    StripPlainLetter('B');
    var records := [HeadingRecord("", "A", None, 1), HeadingRecord("", "B", None, 1)];
    ToRecordsAll([Heading("h1", "A"), Heading("h1", "B")], records);
    ForestFailsIff(records, RootLevel(records));
    assert records[0].level <= RootLevel(records);
  }
}
