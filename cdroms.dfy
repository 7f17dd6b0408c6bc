/** The CD-ROM library panel (`MacCDROMs`): the grouping of the library by
    category under the search filter, the expand/collapse state of the
    panel, and the cover image of one entry. */
module CDROMLibrary {
  import opened Common
  import opened Strings

  datatype CDROM = CDROM(
    name: string,
    coverImageHash: string,
    coverImageSize: (int, int),
    coverImageType: Option<string>)

  // ---------------------------------------------------------------------
  // Filtering and categories
  // ---------------------------------------------------------------------

  /** A folder path survives the filter when the search is empty or the
      lower-cased path contains it; the search itself is not lower-cased. */
  predicate Kept(path: string, search: string)
  {
    search == [] || Includes(ToLower(path), search)
  }

  /** A path is kept exactly when the search is empty or occurs at some
      offset of the lower-cased path. */
  lemma KeptIff(path: string, search: string)
    ensures Kept(path, search) <==> search == [] || exists i :: OccursAt(ToLower(path), search, i)
  {
    var lower := ToLower(path);
    IncludesIff(lower, search);
    if exists i :: OccursAt(lower, search, i) {
      var i :| OccursAt(lower, search, i);
      assert Includes(lower, search) && Kept(path, search);
      assert OccursAt(ToLower(path), search, i);
    } else {
      assert search == [] || !Kept(path, search);
      assert !exists i :: OccursAt(ToLower(path), search, i);
    }
  }

  /** A search holding an upper-case letter keeps nothing. */
  lemma UpperCaseSearchKeepsNothing(path: string, search: string, k: nat)
    requires k < |search| && IsUpper(search[k])
    ensures !Kept(path, search)
  {
    UpperNeverIncludedInLower(path, search, k);
  }

  /** `path.substring(0, path.length - name.length - 1)`. */
  function Category(path: string, name: string): (r: string)
    ensures |r| == Clamp(|path| - |name| - 1, |path|) && r <= path
  {
    PrefixTo(path, |path| - |name| - 1)
  }

  /** For a path `<category>/<name>` the category comes back out. */
  lemma CategoryOfFolderPath(category: string, name: string)
    ensures Category(category + "/" + name, name) == category
  {
    var path := category + "/" + name;
    assert path[..|category|] == category;
  }

  /** A kept library entry with its category. */
  datatype Placed = Placed(category: string, cdrom: CDROM)

  function Entry(path: string, cdrom: CDROM): Placed
  {
    Placed(Category(path, cdrom.name), cdrom)
  }

  /** The kept entries, in the order of `paths`. */
  function KeptEntries(paths: seq<string>, cdroms: map<string, CDROM>, search: string): (r: seq<Placed>)
    requires forall p :: p in paths ==> p in cdroms
    ensures |r| <= |paths|
    ensures forall e :: e in r <==>
      exists p :: p in paths && Kept(p, search) && e == Entry(p, cdroms[p])
    decreases |paths|
  {
    if paths == [] then []
    else
      var init := paths[..|paths| - 1];
      var p := paths[|paths| - 1];
      assert paths == init + [p];
      var rest := KeptEntries(init, cdroms, search);
      if Kept(p, search) then rest + [Entry(p, cdroms[p])] else rest
  }

  /** The folder paths that survive the filter, in their order. */
  function KeptPaths(paths: seq<string>, search: string): (r: seq<string>)
    ensures |r| <= |paths|
    ensures forall p :: p in r <==> p in paths && Kept(p, search)
    decreases |paths|
  {
    if paths == [] then []
    else
      var init := paths[..|paths| - 1];
      var p := paths[|paths| - 1];
      assert paths == init + [p];
      var rest := KeptPaths(init, search);
      if Kept(p, search) then rest + [p] else rest
  }

  /** The kept entries are those of the kept paths, one per path and in
      the same order. */
  lemma {:induction false} KeptEntriesFollowPaths(paths: seq<string>, cdroms: map<string, CDROM>, search: string)
    requires forall p :: p in paths ==> p in cdroms
    ensures var kp := KeptPaths(paths, search);
      var r := KeptEntries(paths, cdroms, search);
      && |r| == |kp|
      && forall i :: 0 <= i < |kp| ==> r[i] == Entry(kp[i], cdroms[kp[i]])
    decreases |paths|
  {
    if paths != [] {
      var init := paths[..|paths| - 1];
      assert paths == init + [paths[|paths| - 1]];
      KeptEntriesFollowPaths(init, cdroms, search);
    }
  }

  /** A path survives as often as it occurs, or not at all. */
  lemma {:induction false} KeptPathsMultiplicity(paths: seq<string>, search: string, p: string)
    ensures multiset(KeptPaths(paths, search))[p] == if Kept(p, search) then multiset(paths)[p] else 0
    decreases |paths|
  {
    if paths != [] {
      var init := paths[..|paths| - 1];
      var last := paths[|paths| - 1];
      KeptPathsMultiplicity(init, search, p);
      assert paths == init + [last];
      assert multiset(paths) == multiset(init) + multiset{last};
      if Kept(last, search) {
        assert multiset(KeptPaths(paths, search)) == multiset(KeptPaths(init, search)) + multiset{last};
      }
    }
  }

  /** Filtering keeps the sorted order of the folder paths. */
  lemma {:induction false} KeptPathsSorted(paths: seq<string>, search: string)
    requires StrictlySorted(paths)
    ensures StrictlySorted(KeptPaths(paths, search))
    decreases |paths|
  {
    if paths != [] {
      var init := paths[..|paths| - 1];
      var last := paths[|paths| - 1];
      assert paths == init + [last];
      assert StrictlySorted(init);
      KeptPathsSorted(init, search);
      var rest := KeptPaths(init, search);
      if Kept(last, search) {
        forall i | 0 <= i < |rest|
          ensures Below(rest[i], last)
        {
          assert rest[i] in init;
        }
      }
    }
  }

  /** Over the sorted keys of the library, the kept paths are exactly the
      kept keys in ascending order. */
  lemma KeptInSortedOrder(keys: set<string>, search: string)
    ensures KeptPaths(SortedElements(keys), search) == SortedElements(set p | p in keys && Kept(p, search))
  {
    var sorted := SortedElements(keys);
    KeptPathsSorted(sorted, search);
    SortedUnique(KeptPaths(sorted, search), SortedElements(set p | p in keys && Kept(p, search)));
  }

  // ---------------------------------------------------------------------
  // The grouping loop, as a fold over the kept entries
  // ---------------------------------------------------------------------

  /** The state of the loop: the categories in the object's key order, the
      list installed for each, and the previous kept entry's category. */
  datatype Grouping = Grouping(keys: seq<string>, lists: map<string, seq<CDROM>>, last: Option<string>)

  const EmptyGrouping: Grouping := Grouping([], map[], None)

  /** One kept entry: a category that differs from the previous one gets a
      fresh empty list (a new key goes to the end of the key order; an
      existing key keeps its place and loses its old list); then the entry
      is appended to its category's list. */
  function Step(g: Grouping, e: Placed): Grouping
  {
    var c := e.category;
    var isNew := g.last != Some(c);
    var keys := if isNew && c !in g.lists then g.keys + [c] else g.keys;
    var current := if !isNew && c in g.lists then g.lists[c] else [];
    Grouping(keys, g.lists[c := current + [e.cdrom]], Some(c))
  }

  /** What one step does: the entry's category becomes the previous one
      and its list ends with the entry; a change of category starts that
      list afresh, even for a category seen before, while a repeat extends
      it; a category seen for the first time goes to the end of the key
      order; no other category's list changes. */
  lemma StepEffect(g: Grouping, e: Placed)
    ensures var r := Step(g, e);
      && r.last == Some(e.category) && e.category in r.lists
      && (g.last != Some(e.category) ==> r.lists[e.category] == [e.cdrom])
      && (g.last == Some(e.category) && e.category in g.lists ==>
            r.lists[e.category] == g.lists[e.category] + [e.cdrom])
      && (forall k :: k != e.category ==>
            (k in r.lists <==> k in g.lists) && (k in g.lists ==> r.lists[k] == g.lists[k]))
      && (e.category in g.lists ==> r.keys == g.keys)
      && (e.category !in g.lists && g.last != Some(e.category) ==> r.keys == g.keys + [e.category])
  {
    assert [] + [e.cdrom] == [e.cdrom];
  }

  function Fold(es: seq<Placed>): Grouping
    decreases |es|
  {
    if es == [] then EmptyGrouping else Step(Fold(es[..|es| - 1]), es[|es| - 1])
  }

  function Cats(es: seq<Placed>): (r: seq<string>)
    ensures |r| == |es| && forall i :: 0 <= i < |es| ==> r[i] == es[i].category
  {
    seq(|es|, i requires 0 <= i < |es| => es[i].category)
  }

  predicate Distinct(s: seq<string>)
  {
    forall i, j :: 0 <= i < j < |s| ==> s[i] != s[j]
  }

  /** What the fold always keeps: distinct keys that are exactly the
      categories seen, each with a non-empty list of entries of that
      category, and the previous category remembered. */
  ghost predicate Inv(g: Grouping, es: seq<Placed>)
  {
    && Distinct(g.keys)
    && (forall k :: k in g.keys <==> k in g.lists)
    && (forall k :: k in g.keys <==> k in Cats(es))
    && (forall k :: k in g.lists ==> g.lists[k] != [])
    && (forall k, i :: k in g.lists && 0 <= i < |g.lists[k]| ==> Placed(k, g.lists[k][i]) in es)
    && g.last == if es == [] then None else Some(es[|es| - 1].category)
  }

  lemma {:induction false} FoldInv(es: seq<Placed>)
    ensures Inv(Fold(es), es)
    decreases |es|
  {
    if es != [] {
      var init := es[..|es| - 1];
      var e := es[|es| - 1];
      assert es == init + [e];
      FoldInv(init);
      var g := Fold(init);
      var g' := Step(g, e);
      assert Cats(es) == Cats(init) + [e.category];
      forall k, i | k in g'.lists && 0 <= i < |g'.lists[k]|
        ensures Placed(k, g'.lists[k][i]) in es
      {
        if k != e.category || i < |g'.lists[k]| - 1 {
          assert Placed(k, g.lists[k][i]) in init;
        }
      }
    }
  }

  /** The sum of the list lengths over `keys`. */
  function TotalOf(keys: seq<string>, lists: map<string, seq<CDROM>>): nat
  {
    if keys == [] then 0
    else (if keys[0] in lists then |lists[keys[0]]| else 0) + TotalOf(keys[1..], lists)
  }

  function Total(g: Grouping): nat
  {
    TotalOf(g.keys, g.lists)
  }

  function Len(lists: map<string, seq<CDROM>>, c: string): nat
  {
    if c in lists then |lists[c]| else 0
  }

  lemma {:induction false} TotalOfUpdate(keys: seq<string>, lists: map<string, seq<CDROM>>, c: string, v: seq<CDROM>)
    requires Distinct(keys)
    ensures c !in keys ==> TotalOf(keys, lists[c := v]) == TotalOf(keys, lists)
    ensures c in keys ==> TotalOf(keys, lists[c := v]) == TotalOf(keys, lists) - Len(lists, c) + |v|
  {
    if keys != [] {
      assert Distinct(keys[1..]) by {
        forall i, j | 0 <= i < j < |keys[1..]| ensures keys[1..][i] != keys[1..][j] {
          assert keys[1..][i] == keys[i + 1] && keys[1..][j] == keys[j + 1];
        }
      }
      TotalOfUpdate(keys[1..], lists, c, v);
      if keys[0] == c {
        assert c !in keys[1..] by {
          forall i | 0 <= i < |keys[1..]| ensures keys[1..][i] != c {
            assert keys[1..][i] == keys[i + 1];
          }
        }
      } else {
        assert c in keys ==> c in keys[1..];
      }
    }
  }

  lemma {:induction false} TotalOfAppend(keys: seq<string>, lists: map<string, seq<CDROM>>, c: string)
    ensures TotalOf(keys + [c], lists) == TotalOf(keys, lists) + Len(lists, c)
  {
    if keys == [] {
      assert [c][1..] == [];
    } else {
      assert (keys + [c])[1..] == keys[1..] + [c];
      TotalOfAppend(keys[1..], lists, c);
    }
  }

  /** Position `j` starts a second run of a category: it differs from the
      previous entry's category but occurred before. */
  predicate RecursAt(cats: seq<string>, j: int)
  {
    0 < j < |cats| && cats[j] != cats[j - 1] && cats[j] in cats[..j]
  }

  ghost predicate Recurs(cats: seq<string>)
  {
    exists j :: RecursAt(cats, j)
  }

  lemma RecursExtend(init: seq<Placed>, e: Placed)
    ensures Recurs(Cats(init + [e])) <==> Recurs(Cats(init)) || RecursAt(Cats(init + [e]), |init|)
  {
    var a := Cats(init);
    var b := Cats(init + [e]);
    assert b == a + [e.category];
    forall j | 0 <= j < |init|
      ensures RecursAt(b, j) <==> RecursAt(a, j)
    {
      assert b[..j] == a[..j];
    }
    if Recurs(b) {
      var j :| RecursAt(b, j);
      if j < |init| {
        assert RecursAt(a, j);
      }
    }
    if Recurs(a) {
      var j :| RecursAt(a, j);
      assert RecursAt(b, j);
    }
  }

  /** Whether the last position starts a second run. */
  lemma RecursAtEnd(init: seq<Placed>, e: Placed)
    ensures RecursAt(Cats(init + [e]), |init|) <==>
      init != [] && e.category != init[|init| - 1].category && e.category in Cats(init)
  {
    var b := Cats(init + [e]);
    assert b == Cats(init) + [e.category];
    assert b[..|init|] == Cats(init);
  }

  lemma FoldSnoc(es: seq<Placed>, e: Placed)
    ensures Fold(es + [e]) == Step(Fold(es), e)
  {
    assert (es + [e])[..|es|] == es;
  }

  /** How one entry changes the total: `+1` when it continues the current
      run or opens a new category, `+1 - <old list length>` when it opens a
      second run and so replaces a non-empty list. */
  lemma StepTotal(g: Grouping, es: seq<Placed>, e: Placed)
    requires Inv(g, es)
    ensures var c := e.category;
      Total(Step(g, e)) ==
        if g.last == Some(c) || c !in g.lists then Total(g) + 1 else Total(g) - Len(g.lists, c) + 1
    ensures e.category in g.lists ==> Len(g.lists, e.category) >= 1
  {
    var c := e.category;
    var current := if g.last == Some(c) && c in g.lists then g.lists[c] else [];
    TotalOfUpdate(g.keys, g.lists, c, current + [e.cdrom]);
    if g.last != Some(c) && c !in g.lists {
      assert c !in g.keys;
      assert current + [e.cdrom] == [e.cdrom];
      TotalOfAppend(g.keys, g.lists[c := [e.cdrom]], c);
    } else if g.last == Some(c) {
      assert c in g.keys;
    } else {
      assert c in g.keys;
    }
  }

  /** The grouped entries never outnumber the kept ones, and they are all
      there exactly when no category starts a second run; a second run
      replaces the first run's list, whose entries are lost. */
  lemma {:induction false} TotalIff(es: seq<Placed>)
    ensures Total(Fold(es)) <= |es|
    ensures Total(Fold(es)) == |es| <==> !Recurs(Cats(es))
    decreases |es|
  {
    if es == [] {
      assert !RecursAt(Cats(es), 0);
    } else {
      var init := es[..|es| - 1];
      var e := es[|es| - 1];
      assert es == init + [e];
      TotalIff(init);
      FoldInv(init);
      RecursExtend(init, e);
      RecursAtEnd(init, e);
      FoldSnoc(init, e);
      StepTotal(Fold(init), init, e);
    }
  }

  /** The entries of category `c`, in order. */
  function ItemsOf(es: seq<Placed>, c: string): seq<CDROM>
    decreases |es|
  {
    if es == [] then []
    else
      var rest := ItemsOf(es[..|es| - 1], c);
      if es[|es| - 1].category == c then rest + [es[|es| - 1].cdrom] else rest
  }

  lemma {:induction false} ItemsOfAbsent(es: seq<Placed>, c: string)
    requires c !in Cats(es)
    ensures ItemsOf(es, c) == []
    decreases |es|
  {
    if es != [] {
      var init := es[..|es| - 1];
      assert Cats(es) == Cats(init) + [es[|es| - 1].category];
      ItemsOfAbsent(init, c);
    }
  }

  /** Without a second run of any category each category's list holds all
      of its entries, in visit order. */
  lemma {:induction false} GroupsComplete(es: seq<Placed>)
    requires !Recurs(Cats(es))
    ensures forall k :: k in Fold(es).lists ==> Fold(es).lists[k] == ItemsOf(es, k)
    decreases |es|
  {
    if es != [] {
      var init := es[..|es| - 1];
      var e := es[|es| - 1];
      assert es == init + [e];
      RecursExtend(init, e);
      RecursAtEnd(init, e);
      GroupsComplete(init);
      FoldInv(init);
      if Fold(init).last != Some(e.category) {
        ItemsOfAbsent(init, e.category);
      }
    }
  }

  /** Three turns of the fold, as a chain of steps. */
  lemma FoldThree(e0: Placed, e1: Placed, e2: Placed)
    ensures Fold([e0, e1, e2]) == Step(Step(Step(EmptyGrouping, e0), e1), e2)
  {
    FoldSnoc([], e0);
    FoldSnoc([e0], e1);
    FoldSnoc([e0, e1], e2);
    assert [] + [e0] == [e0] && [e0] + [e1] == [e0, e1] && [e0, e1] + [e2] == [e0, e1, e2];
  }

  /** The quirk: with entries of a category `c` on both sides of an entry
      of another category `d` (as `Games` around a nested `Games/Sub`),
      the second run of `c` replaces the first run's list, so only one of
      the two `c` entries is grouped. */
  lemma SecondRunReplacesList(c: string, d: string, a: CDROM, b: CDROM, z: CDROM)
    requires c != d
    ensures
      var es := [Placed(c, a), Placed(d, b), Placed(c, z)];
      var g := Fold(es);
      && g.keys == [c, d]
      && g.lists[c] == [z]
      && Total(g) == 2 < |es|
  {
    var e0, e1, e2 := Placed(c, a), Placed(d, b), Placed(c, z);
    var g1 := Step(EmptyGrouping, e0);
    var g2 := Step(g1, e1);
    var g3 := Step(g2, e2);
    FoldThree(e0, e1, e2);
    StepEffect(EmptyGrouping, e0);
    StepEffect(g1, e1);
    StepEffect(g2, e2);
    assert g1.keys == [c] && g1.lists.Keys == {c};
    assert g2.keys == [c, d] && g2.lists[d] == [b];
    assert g3.keys == g2.keys && g3.lists[c] == [z] && g3.lists[d] == [b];
    assert TotalOf([d], g3.lists) == 1 by {
      assert [d][1..] == [];
    }
    assert [c, d][1..] == [d];
  }

  /** One turn of the grouping loop: a filtered-out path leaves the
      grouping as it is, a kept one is one `Step`; the previous category
      always has a list. */
  lemma GroupStep(paths: seq<string>, i: nat, cdroms: map<string, CDROM>, search: string)
    requires i < |paths| && forall p :: p in paths ==> p in cdroms
    ensures var g := Fold(KeptEntries(paths[..i], cdroms, search));
      && (g.last.Some? ==> g.last.value in g.lists)
      && Fold(KeptEntries(paths[..i + 1], cdroms, search)) ==
           if Kept(paths[i], search) then Step(g, Entry(paths[i], cdroms[paths[i]])) else g
  {
    assert paths[..i + 1][..i] == paths[..i];
    var es := KeptEntries(paths[..i], cdroms, search);
    FoldInv(es);
    FoldSnoc(es, Entry(paths[i], cdroms[paths[i]]));
  }

  /** The loop of `MacCDROMsContents` over the folder paths in the given
      order: skip those the search filters out, and group the rest by
      category. */
  method GroupPaths(paths: seq<string>, cdroms: map<string, CDROM>, search: string)
    returns (categories: seq<string>, lists: map<string, seq<CDROM>>)
    requires forall p :: p in paths ==> p in cdroms
    ensures var g := Fold(KeptEntries(paths, cdroms, search));
      categories == g.keys && lists == g.lists
  {
    var keys: seq<string> := [];
    var groups: map<string, seq<CDROM>> := map[];
    var lastCategory: Option<string> := None;
    for i := 0 to |paths|
      invariant Grouping(keys, groups, lastCategory) == Fold(KeptEntries(paths[..i], cdroms, search))
    {
      GroupStep(paths, i, cdroms, search);
      var path := paths[i];
      if search != [] && !Includes(ToLower(path), search) {
        continue;
      }
      var cdrom := cdroms[path];
      var category := Category(path, cdrom.name);
      ghost var before := groups;
      if lastCategory != Some(category) {
        if category !in groups {
          keys := keys + [category];
        }
        groups := groups[category := []];
        lastCategory := Some(category);
        assert [] + [cdrom] == [cdrom];
        assert groups[category := groups[category] + [cdrom]] == before[category := [cdrom]];
      }
      groups := groups[category := groups[category] + [cdrom]];
    }
    assert paths[..|paths|] == paths;
    categories, lists := keys, groups;
  }

  /** The whole grouping: the folder paths in sorted order, through
      `GroupPaths`. The categories are distinct, each has a list, and no
      more CD-ROMs are grouped than the library holds. */
  method GroupLibrary(cdroms: map<string, CDROM>, search: string)
    returns (categories: seq<string>, lists: map<string, seq<CDROM>>)
    ensures var g := Fold(KeptEntries(SortedElements(cdroms.Keys), cdroms, search));
      categories == g.keys && lists == g.lists
    ensures Distinct(categories) && forall k :: k in categories <==> k in lists
    ensures TotalOf(categories, lists) <= |cdroms|
  {
    var paths := SortedElements(cdroms.Keys);
    categories, lists := GroupPaths(paths, cdroms, search);
    ghost var es := KeptEntries(paths, cdroms, search);
    FoldInv(es);
    TotalIff(es);
  }

  // ---------------------------------------------------------------------
  // The panel and one entry
  // ---------------------------------------------------------------------

  /** The expanded flag of the panel and the CD-ROMs handed to `onRun`. */
  class CDROMsPanel {
    var expanded: bool
    var ran: seq<CDROM>

    constructor ()
      ensures !expanded && ran == []
    {
      expanded := false;
      ran := [];
    }

    /** The library contents are shown only while expanded. */
    function ShowsContents(): bool
      reads this
    {
      expanded
    }

    /** A click on the title. */
    method ToggleExpanded()
      modifies this`expanded
      ensures expanded == !old(expanded)
    {
      expanded := !expanded;
    }

    /** Choosing a CD-ROM collapses the panel, then runs it. */
    method Choose(cdrom: CDROM)
      modifies this`expanded, this`ran
      ensures !expanded && !ShowsContents()
      ensures ran == old(ran) + [cdrom]
    {
      expanded := false;
      ran := ran + [cdrom];
    }
  }

  const CoverPrefix: string := "/Covers/"
  const CoverSuffix: string := ".jpeg"

  /** The cover image address of an entry. */
  function CoverImageUrl(c: CDROM): (url: string)
    ensures |url| == |CoverPrefix| + |c.coverImageHash| + |CoverSuffix|
    ensures CoverPrefix <= url && EndsWith(url, CoverSuffix)
    ensures url[|CoverPrefix|..|url| - |CoverSuffix|] == c.coverImageHash
  {
    CoverPrefix + c.coverImageHash + CoverSuffix
  }

  /** The address determines the hash. */
  lemma CoverImageUrlInjective(c: CDROM, d: CDROM)
    ensures CoverImageUrl(c) == CoverImageUrl(d) <==> c.coverImageHash == d.coverImageHash
  {
    if CoverImageUrl(c) == CoverImageUrl(d) {
      assert c.coverImageHash == CoverImageUrl(c)[|CoverPrefix|..|CoverImageUrl(c)| - |CoverSuffix|];
    }
  }

  /** `coverImageType` defaults to `round`. */
  function CoverType(c: CDROM): (t: string)
    ensures c.coverImageType.None? ==> t == "round"
    ensures c.coverImageType.Some? ==> t == c.coverImageType.value
  {
    c.coverImageType.GetOr("round")
  }

  /** The round-cover class applies when the type is `round`, given or by
      default. */
  function IsRoundCover(c: CDROM): (b: bool)
    ensures b <==> c.coverImageType.None? || c.coverImageType.value == "round"
  {
    CoverType(c) == "round"
  }

  /** What the entry renders: the image address, its size and whether the
      round class applies. */
  datatype Cover = Cover(url: string, width: int, height: int, round: bool)

  function CoverOf(c: CDROM): (r: Cover)
    ensures r.url == CoverImageUrl(c) && r.round == IsRoundCover(c)
    ensures (r.width, r.height) == c.coverImageSize
  {
    Cover(CoverImageUrl(c), c.coverImageSize.0, c.coverImageSize.1, IsRoundCover(c))
  }
}
