/**
 * The table-of-contents forest as a value, and the reference definition of
 * what the builder produces: each heading, in order, is inserted on the
 * rightmost path of the forest at depth `level - rootLevel`, with empty
 * placeholder nodes for the depths the rightmost path does not reach.
 */
module TocTree {
  import opened Wrappers
  import opened Headings

  /**
   * A finished table-of-contents entry in its serialised shape: id, text,
   * dataHref and children, without the parent back-pointer. `Placeholder` is
   * the empty entry created for a skipped level; its id and text are '' and
   * it has no dataHref (see Id, Text and DataHref).
   */
  datatype TocNode =
    | Item(id: string, text: string, dataHref: Option<string>, children: seq<TocNode>)
    | Placeholder(children: seq<TocNode>)
  {
    function Id(): string { if Item? then id else "" }
    function Text(): string { if Item? then text else "" }
    function DataHref(): Option<string> { if Item? then dataHref else None }
  }

  /** The entry one heading contributes, before anything is attached under it. */
  function ItemOf(h: HeadingRecord): TocNode
  {
    Item(h.id, h.text, h.dataHref, [])
  }

  function Last<T>(s: seq<T>): T
    requires s != []
  {
    s[|s| - 1]
  }

  /**
   * Attaches `n` at depth `depth` (1 = top level) on the rightmost path of `f`:
   * it becomes the last child of the last node at depth `depth - 1`; where
   * the rightmost path stops short of that, a chain of placeholders is
   * created down to it.
   */
  function Insert(f: seq<TocNode>, depth: nat, n: TocNode): (r: seq<TocNode>)
    requires depth >= 1
    ensures r != []
    decreases depth
  {
    if depth == 1 then f + [n]
    else if f == [] then [Placeholder(Insert([], depth - 1, n))]
    else f[..|f| - 1] + [Last(f).(children := Insert(Last(f).children, depth - 1, n))]
  }

  /** Below the top level, an entry goes under the forest's last node. */
  lemma InsertUnderLast(init: seq<TocNode>, last: TocNode, depth: nat, n: TocNode)
    requires depth >= 2
    ensures Insert(init + [last], depth, n) ==
            init + [last.(children := Insert(last.children, depth - 1, n))]
  {
    assert (init + [last])[..|init|] == init;
  }

  /**
   * The forest built from `headers` when the synthetic root stands at level
   * `rootLevel`: the headings are inserted one after the other, each at depth
   * `level - rootLevel`. A heading at or above the root level would need the
   * cursor to climb past the root, and the build fails there.
   */
  function Forest(headers: seq<HeadingRecord>, rootLevel: int): (r: Result<seq<TocNode>, TocError>)
    ensures r.Failure? ==> r.error == AscendPastRoot
    decreases |headers|
  {
    if headers == [] then Success([])
    else
      var h := Last(headers);
      match Forest(headers[..|headers| - 1], rootLevel)
      case Failure(e) => Failure(e)
      case Success(f) =>
        if h.level - rootLevel < 1 then Failure(AscendPastRoot)
        else Success(Insert(f, h.level - rootLevel, ItemOf(h)))
  }

  // ---------------------------------------------------------------------------
  // Observations on a forest

  /** One real (non-placeholder) entry met by a pre-order walk, with its depth. */
  datatype Visit = Visit(depth: int, id: string, text: string, dataHref: Option<string>)

  /** The pre-order walk of `f`, whose nodes stand at depth `depth`, skipping placeholders. */
  function Walk(f: seq<TocNode>, depth: int): seq<Visit>
    decreases f
  {
    if f == [] then []
    else
      (if f[0].Item? then [Visit(depth, f[0].id, f[0].text, f[0].dataHref)] else [])
      + Walk(f[0].children, depth + 1) + Walk(f[1..], depth)
  }

  /** The number of placeholder nodes in `f`. */
  function Placeholders(f: seq<TocNode>): nat
    decreases f
  {
    if f == [] then 0
    else (if f[0].Placeholder? then 1 else 0) + Placeholders(f[0].children) + Placeholders(f[1..])
  }

  /** The rightmost path of `f`: its last node, that node's last child, and so on. */
  function Spine(f: seq<TocNode>): seq<TocNode>
    decreases f
  {
    if f == [] then [] else [Last(f)] + Spine(Last(f).children)
  }

  /** The children list holding the rightmost node at depth `depth`. */
  function Siblings(f: seq<TocNode>, depth: nat): seq<TocNode>
    requires depth >= 1
    decreases depth
  {
    if depth == 1 then f
    else if f == [] then []
    else Siblings(Last(f).children, depth - 1)
  }

  // ---------------------------------------------------------------------------
  // Insert

  lemma {:induction false} WalkAppend(a: seq<TocNode>, b: seq<TocNode>, depth: int)
    ensures Walk(a + b, depth) == Walk(a, depth) + Walk(b, depth)
    decreases a
  {
    if a == [] {
      assert a + b == b;
    } else {
      assert (a + b)[0] == a[0] && (a + b)[1..] == a[1..] + b;
      WalkAppend(a[1..], b, depth);
    }
  }

  lemma {:induction false} PlaceholdersAppend(a: seq<TocNode>, b: seq<TocNode>)
    ensures Placeholders(a + b) == Placeholders(a) + Placeholders(b)
    decreases a
  {
    if a == [] {
      assert a + b == b;
    } else {
      assert (a + b)[0] == a[0] && (a + b)[1..] == a[1..] + b;
      PlaceholdersAppend(a[1..], b);
    }
  }

  /** The walk of a single node: its own visit, if it is real, then its children's walk. */
  lemma WalkSingle(n: TocNode, depth: int)
    ensures Walk([n], depth) ==
            (if n.Item? then [Visit(depth, n.id, n.text, n.dataHref)] else []) + Walk(n.children, depth + 1)
  {
    assert [n][1..] == [];
  }

  /** Inserting a heading's entry appends exactly its visit, at the depth it was inserted. */
  lemma {:induction false} WalkInsert(f: seq<TocNode>, depth: nat, h: HeadingRecord, base: int)
    requires depth >= 1
    ensures Walk(Insert(f, depth, ItemOf(h)), base) ==
            Walk(f, base) + [Visit(base + depth - 1, h.id, h.text, h.dataHref)]
    decreases depth
  {
    var n := ItemOf(h);
    if depth == 1 {
      WalkAppend(f, [n], base);
      WalkSingle(n, base);
    } else if f == [] {
      var c := Insert([], depth - 1, n);
      WalkInsert([], depth - 1, h, base + 1);
      WalkSingle(Placeholder(c), base);
    } else {
      WalkInsert(Last(f).children, depth - 1, h, base + 1);
      WalkInsertUnderLast(f, depth, h, base);
    }
  }

  /** The step of WalkInsert that goes down into the last node of a non-empty forest. */
  lemma WalkInsertUnderLast(f: seq<TocNode>, depth: nat, h: HeadingRecord, base: int)
    requires depth >= 2 && f != []
    requires Walk(Insert(Last(f).children, depth - 1, ItemOf(h)), base + 1) ==
             Walk(Last(f).children, base + 1) + [Visit(base + depth - 1, h.id, h.text, h.dataHref)]
    ensures Walk(Insert(f, depth, ItemOf(h)), base) ==
            Walk(f, base) + [Visit(base + depth - 1, h.id, h.text, h.dataHref)]
  {
    var init, last := f[..|f| - 1], Last(f);
    var last' := last.(children := Insert(last.children, depth - 1, ItemOf(h)));
    assert f == init + [last];
    assert Insert(f, depth, ItemOf(h)) == init + [last'];
    WalkAppend(init, [last], base);
    WalkAppend(init, [last'], base);
    WalkSingle(last, base);
    WalkSingle(last', base);
  }

  /**
   * Inserting a heading's entry at `depth` on a forest whose rightmost path
   * has length `s` adds exactly `depth - 1 - s` placeholders when the path
   * falls short of `depth - 1`, and none otherwise.
   */
  lemma {:induction false} PlaceholdersInsert(f: seq<TocNode>, depth: nat, h: HeadingRecord)
    requires depth >= 1
    ensures Placeholders(Insert(f, depth, ItemOf(h))) ==
            Placeholders(f) + (if depth - 1 > |Spine(f)| then depth - 1 - |Spine(f)| else 0)
    decreases depth
  {
    var n := ItemOf(h);
    if depth == 1 {
      PlaceholdersAppend(f, [n]);
      assert Placeholders([n]) == Placeholders([]) + Placeholders([]);
    } else if f == [] {
      var c := Insert([], depth - 1, n);
      PlaceholdersInsert([], depth - 1, h);
      assert Placeholders([Placeholder(c)]) == 1 + Placeholders(c) + Placeholders([]);
    } else {
      var init, last := f[..|f| - 1], Last(f);
      var c := Insert(last.children, depth - 1, n);
      var last' := last.(children := c);
      assert f == init + [last];
      PlaceholdersAppend(init, [last]);
      PlaceholdersAppend(init, [last']);
      PlaceholdersInsert(last.children, depth - 1, h);
      var own := if last.Placeholder? then 1 else 0;
      assert Placeholders([last]) == own + Placeholders(last.children) + Placeholders([]);
      assert Placeholders([last']) == own + Placeholders(c) + Placeholders([]);
    }
  }

  /**
   * After inserting `n` (without children) at `depth`, the rightmost path has
   * length `depth` and ends in `n`; the path positions from the old path's
   * end down to `n` are placeholders, chained one inside the next.
   */
  lemma {:induction false} SpineInsert(f: seq<TocNode>, depth: nat, n: TocNode)
    requires depth >= 1 && n.children == []
    ensures var s := Spine(Insert(f, depth, n));
            |s| == depth && s[depth - 1] == n &&
            forall j :: |Spine(f)| <= j < depth - 1 ==> s[j].Placeholder?
    decreases depth
  {
    var r := Insert(f, depth, n);
    if depth == 1 {
      assert Last(r) == n;
      assert Spine(r) == [n] + Spine([]);
    } else if f == [] {
      var c := Insert([], depth - 1, n);
      SpineInsert([], depth - 1, n);
      assert Spine(r) == [Placeholder(c)] + Spine(c);
    } else {
      var c := Insert(Last(f).children, depth - 1, n);
      SpineInsert(Last(f).children, depth - 1, n);
      assert Last(r) == Last(f).(children := c);
      assert Spine(r) == [Last(r)] + Spine(c);
      assert Spine(f) == [Last(f)] + Spine(Last(f).children);
    }
  }

  /**
   * Inserting at a depth the rightmost path reaches (or extends by one)
   * appends `n` to the children list at that depth and leaves the entries
   * already there as they were.
   */
  lemma {:induction false} SiblingsInsert(f: seq<TocNode>, depth: nat, n: TocNode)
    requires 1 <= depth <= |Spine(f)| + 1
    ensures Siblings(Insert(f, depth, n), depth) == Siblings(f, depth) + [n]
    decreases depth
  {
    if depth > 1 {
      assert f != [];
      var c := Insert(Last(f).children, depth - 1, n);
      SiblingsInsert(Last(f).children, depth - 1, n);
      assert Last(Insert(f, depth, n)) == Last(f).(children := c);
    }
  }

  /** The children list at a depth the rightmost path reaches ends in the path's node there. */
  lemma {:induction false} SiblingsEndOnSpine(f: seq<TocNode>, depth: nat)
    requires 1 <= depth <= |Spine(f)|
    ensures Siblings(f, depth) != [] && Last(Siblings(f, depth)) == Spine(f)[depth - 1]
    decreases depth
  {
    if depth > 1 {
      SiblingsEndOnSpine(Last(f).children, depth - 1);
    }
  }

  // ---------------------------------------------------------------------------
  // Forest

  /** One more heading: its entry is inserted at depth `level - rootLevel`, or the build fails. */
  lemma ForestStep(headers: seq<HeadingRecord>, i: nat, rootLevel: int)
    requires i < |headers| && Forest(headers[..i], rootLevel).Success?
    ensures var depth := headers[i].level - rootLevel;
            Forest(headers[..i + 1], rootLevel) ==
              if depth < 1 then Failure(AscendPastRoot)
              else Success(Insert(Forest(headers[..i], rootLevel).value, depth, ItemOf(headers[i])))
  {
    assert headers[..i + 1][..i] == headers[..i];
  }

  /** The same step, for a heading appended to a list that builds. */
  lemma ForestSnoc(headers: seq<HeadingRecord>, h: HeadingRecord, rootLevel: int)
    requires Forest(headers, rootLevel).Success?
    ensures var depth := h.level - rootLevel;
            Forest(headers + [h], rootLevel) ==
              if depth < 1 then Failure(AscendPastRoot)
              else Success(Insert(Forest(headers, rootLevel).value, depth, ItemOf(h)))
  {
    assert (headers + [h])[..|headers|] == headers;
  }

  /** Once a prefix of the headings fails, the whole build fails the same way. */
  lemma {:induction false} ForestFailurePersists(headers: seq<HeadingRecord>, k: nat, rootLevel: int)
    requires k <= |headers| && Forest(headers[..k], rootLevel).Failure?
    ensures Forest(headers, rootLevel) == Forest(headers[..k], rootLevel)
    decreases |headers| - k
  {
    if k == |headers| {
      assert headers[..k] == headers;
    } else {
      var init := headers[..|headers| - 1];
      assert init[..k] == headers[..k];
      ForestFailurePersists(init, k, rootLevel);
    }
  }

  /** The build fails exactly when some heading is not below the root level. */
  lemma {:induction false} ForestFailsIff(headers: seq<HeadingRecord>, rootLevel: int)
    ensures Forest(headers, rootLevel).Failure? <==>
            exists i :: 0 <= i < |headers| && headers[i].level <= rootLevel
    ensures Forest(headers, rootLevel).Failure? ==> Forest(headers, rootLevel).error == AscendPastRoot
    decreases |headers|
  {
    if headers != [] {
      var init := headers[..|headers| - 1];
      ForestFailsIff(init, rootLevel);
      assert forall i :: 0 <= i < |init| ==> init[i] == headers[i];
      if exists i :: 0 <= i < |headers| && headers[i].level <= rootLevel {
        var i :| 0 <= i < |headers| && headers[i].level <= rootLevel;
        if i < |init| {
          assert init[i].level <= rootLevel;
        }
      }
    }
  }

  /**
   * With the root level the source computes, the build fails exactly when
   * some heading is a level-1 heading: the `|| 1` fallback puts the root at
   * level 1, and such a heading sends the cursor above the root.
   */
  lemma ForestFailsIffLevelOne(headers: seq<HeadingRecord>)
    ensures Forest(headers, RootLevel(headers)).Failure? <==>
            exists i :: 0 <= i < |headers| && headers[i].level == 1
  {
    ForestFailsIff(headers, RootLevel(headers));
  }

  /**
   * Each heading yields exactly one real entry: the pre-order walk of the
   * forest, placeholders skipped, lists the headings in input order, each with
   * its id, text and dataHref and at depth `level - rootLevel`.
   */
  lemma {:induction false} ForestWalk(headers: seq<HeadingRecord>, rootLevel: int)
    requires Forest(headers, rootLevel).Success?
    ensures var visits := Walk(Forest(headers, rootLevel).value, 1);
            |visits| == |headers| &&
            forall i :: 0 <= i < |headers| ==>
              visits[i] == Visit(headers[i].level - rootLevel, headers[i].id, headers[i].text, headers[i].dataHref)
    decreases |headers|
  {
    if headers != [] {
      var init, h := headers[..|headers| - 1], Last(headers);
      assert headers == init + [h];
      ForestSnoc(init, h, rootLevel);
      var f := Forest(init, rootLevel).value;
      ForestWalk(init, rootLevel);
      var v := Visit(h.level - rootLevel, h.id, h.text, h.dataHref);
      WalkInsert(f, h.level - rootLevel, h, 1);
      var visits := Walk(Forest(headers, rootLevel).value, 1);
      assert visits == Walk(f, 1) + [v];
      forall i | 0 <= i < |headers|
        ensures visits[i] == Visit(headers[i].level - rootLevel, headers[i].id, headers[i].text, headers[i].dataHref)
      {
        if i < |init| {
          assert init[i] == headers[i] && visits[i] == Walk(f, 1)[i];
        } else {
          assert headers[i] == h && visits[i] == v;
        }
      }
    }
  }

  /**
   * After a non-empty build the rightmost path has length
   * `level - rootLevel` of the last heading and ends in that heading's entry:
   * this is where the source's cursor stands, at depth `lastLevel - rootLevel`.
   */
  lemma {:induction false} ForestSpine(headers: seq<HeadingRecord>, rootLevel: int)
    requires headers != [] && Forest(headers, rootLevel).Success?
    ensures var s := Spine(Forest(headers, rootLevel).value);
            |s| == Last(headers).level - rootLevel && Last(s) == ItemOf(Last(headers))
  {
    var init, h := headers[..|headers| - 1], Last(headers);
    SpineInsert(Forest(init, rootLevel).value, h.level - rootLevel, ItemOf(h));
  }

  /**
   * A heading more than one level deeper than the one before it (or than the
   * root, for the first heading) adds exactly `jump - 1` placeholders; they
   * lie on the rightmost path between the previous heading and the new one,
   * each inside the one before, and the new heading sits under the deepest.
   */
  lemma PlaceholdersForJump(headers: seq<HeadingRecord>, h: HeadingRecord, rootLevel: int)
    requires Forest(headers + [h], rootLevel).Success?
    ensures Forest(headers, rootLevel).Success?
    ensures var previous := if headers == [] then rootLevel else Last(headers).level;
            var before := Forest(headers, rootLevel).value;
            var after := Forest(headers + [h], rootLevel).value;
            Placeholders(after) ==
              Placeholders(before) + (if h.level > previous + 1 then h.level - previous - 1 else 0) &&
            |Spine(after)| == h.level - rootLevel && Last(Spine(after)) == ItemOf(h) &&
            forall j :: previous - rootLevel <= j < h.level - rootLevel - 1 ==>
              Spine(after)[j].Placeholder? &&
              Spine(after)[j].Id() == "" && Spine(after)[j].Text() == "" && Spine(after)[j].DataHref() == None
  {
    var all := headers + [h];
    assert all[..|all| - 1] == headers && Last(all) == h;
    var before := Forest(headers, rootLevel).value;
    var depth := h.level - rootLevel;
    if headers != [] {
      ForestSpine(headers, rootLevel);
    }
    PlaceholdersInsert(before, depth, h);
    SpineInsert(before, depth, ItemOf(h));
  }

  /**
   * Two consecutive headings at the same level are siblings: the second is
   * appended to the children list whose last entry is the first, and the
   * entries before it stay as they were.
   */
  lemma SameLevelSiblings(headers: seq<HeadingRecord>, a: HeadingRecord, b: HeadingRecord, rootLevel: int)
    requires a.level == b.level
    requires Forest(headers + [a, b], rootLevel).Success?
    ensures Forest(headers + [a], rootLevel).Success?
    ensures var depth := a.level - rootLevel;
            var first := Forest(headers + [a], rootLevel).value;
            var second := Forest(headers + [a, b], rootLevel).value;
            depth >= 1 &&
            Siblings(first, depth) != [] && Last(Siblings(first, depth)) == ItemOf(a) &&
            Siblings(second, depth) == Siblings(first, depth) + [ItemOf(b)]
  {
    var withA, withB := headers + [a], headers + [a, b];
    assert withB[..|withB| - 1] == withA && Last(withB) == b;
    assert withA[..|withA| - 1] == headers && Last(withA) == a;
    var depth := a.level - rootLevel;
    var first := Forest(withA, rootLevel).value;
    ForestSpine(withA, rootLevel);
    SiblingsEndOnSpine(first, depth);
    SiblingsInsert(first, depth, ItemOf(b));
  }
}
