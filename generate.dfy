/**
 Template filling and pagination of generate.py.

 A page tree is abstracted to its top-level groups in document order. A group
 whose `class` is exactly "template" is a template region; its body lists the
 elements inside it in document order. A slot is an `svg:tspan` element, and it
 takes the text of the row entry whose key equals its `class`. Groups that are
 not template regions stand for the rest of the document.
 */
module Generate {
  import opened Rows
  import opened Pagination

  /** An element inside a group: whether it is an `svg:tspan`, its `class`, its text. */
  datatype Element = Element(isTspan: bool, cls: string, text: string)

  /** A top-level group of the document and the elements inside it. */
  datatype Group = Group(cls: string, body: seq<Element>)

  /** The marker value that makes a group a template region. */
  const TemplateClass := "template"

  predicate IsTemplate(g: Group)
  {
    g.cls == TemplateClass
  }

  /** The number of template regions among `groups`. */
  function Regions(groups: seq<Group>): nat
  {
    if groups == [] then 0
    else (if IsTemplate(groups[0]) then 1 else 0) + Regions(groups[1..])
  }

  /** The elements of one region after binding `row`, in document order. */
  function FillRegion(body: seq<Element>, row: Row): (r: seq<Element>)
    ensures |r| == |body|
  {
    if body == [] then []
    else
      var e := body[0];
      [if e.isTspan && e.cls in row then e.(text := row[e.cls]) else e] + FillRegion(body[1..], row)
  }

  /** Binding `row` to a region: a slot labelled with a key of `row` takes that
      key's value; every other element, and every element's kind and label, is
      left as it was. */
  lemma {:induction false} FillRegionSlot(body: seq<Element>, row: Row, i: nat)
    requires i < |body|
    ensures FillRegion(body, row)[i].isTspan == body[i].isTspan
    ensures FillRegion(body, row)[i].cls == body[i].cls
    ensures body[i].isTspan && body[i].cls in row ==> FillRegion(body, row)[i].text == row[body[i].cls]
    ensures !(body[i].isTspan && body[i].cls in row) ==> FillRegion(body, row)[i] == body[i]
  {
    if i > 0 {
      FillRegionSlot(body[1..], row, i - 1);
    }
  }

  /** Reference definition of a filled page: walk the groups in document order
      and bind the next row of `rows` to each template region met, while rows last. */
  function FillPage(groups: seq<Group>, rows: seq<Row>): (r: seq<Group>)
    ensures |r| == |groups|
  {
    if groups == [] then []
    else if IsTemplate(groups[0]) && rows != [] then
      [groups[0].(body := FillRegion(groups[0].body, rows[0]))] + FillPage(groups[1..], rows[1..])
    else
      [groups[0]] + FillPage(groups[1..], rows)
  }

  /** What group `g` becomes when it is the template region of rank `rank` on a page
      fed `rows`: filled from `rows[rank]` if there is such a row, otherwise unchanged. */
  function BindAt(g: Group, rank: nat, rows: seq<Row>): Group
  {
    if IsTemplate(g) && rank < |rows| then g.(body := FillRegion(g.body, rows[rank])) else g
  }

  /** Counting regions distributes over concatenation. */
  lemma {:induction false} RegionsAppend(a: seq<Group>, b: seq<Group>)
    ensures Regions(a + b) == Regions(a) + Regions(b)
  {
    if a == [] {
      assert a + b == b;
    } else {
      assert (a + b)[0] == a[0] && (a + b)[1..] == a[1..] + b;
      RegionsAppend(a[1..], b);
    }
  }

  /** Group `h` of a filled page depends only on group `h` of the template and on
      the row whose index is the number of regions before it: the `r`-th region
      in document order gets the `r`-th row, regions past the last row and all
      other groups are unchanged, and no region is touched by another's row. */
  lemma {:induction false} FillPageAt(groups: seq<Group>, rows: seq<Row>, h: nat)
    requires h < |groups|
    ensures FillPage(groups, rows)[h] == BindAt(groups[h], Regions(groups[..h]), rows)
  {
    if h > 0 {
      var rest := if IsTemplate(groups[0]) && rows != [] then rows[1..] else rows;
      assert FillPage(groups, rows)[h] == FillPage(groups[1..], rest)[h - 1];
      FillPageAt(groups[1..], rest, h - 1);
      assert groups[..h][0] == groups[0] && groups[..h][1..] == groups[1..][..h - 1];
      assert groups[1..][h - 1] == groups[h];
    }
  }

  /** A page document: the tree that `replace` fills in place. */
  class PageTree {
    var groups: seq<Group>

    /** The tree as parsed from the template file. */
    constructor (groups: seq<Group>)
      ensures this.groups == groups
    {
      this.groups := groups;
    }

    /** `copy.deepcopy(master_tree)`: a fresh tree with the same content. */
    constructor Copy(master: PageTree)
      ensures groups == master.groups
    {
      groups := master.groups;
    }
  }

  /** The inner loops of `replace` (generate.py:37-40) for one region: for
      each key of `row`, set the text of every slot of group `g` labelled
      with that key. */
  method FillRegionAt(root: PageTree, g: nat, row: Row)
    requires g < |root.groups|
    modifies root
    ensures root.groups == old(root.groups)[g := old(root.groups)[g].(body := FillRegion(old(root.groups)[g].body, row))]
  {
    ghost var orig := root.groups[g].body;
    ghost var applied: set<string> := {};
    var keys := row.Keys;
    while keys != {}
      invariant keys !! applied && keys + applied == row.Keys
      invariant |root.groups| == |old(root.groups)|
      invariant forall h :: 0 <= h < |root.groups| && h != g ==> root.groups[h] == old(root.groups)[h]
      invariant root.groups[g].cls == old(root.groups)[g].cls && |root.groups[g].body| == |orig|
      invariant forall i :: 0 <= i < |orig| ==> root.groups[g].body[i] == Applied(orig[i], row, applied)
      decreases keys
    {
      var k :| k in keys;
      var i := 0;
      while i < |root.groups[g].body|
        invariant 0 <= i <= |orig|
        invariant |root.groups| == |old(root.groups)|
        invariant forall h :: 0 <= h < |root.groups| && h != g ==> root.groups[h] == old(root.groups)[h]
        invariant root.groups[g].cls == old(root.groups)[g].cls && |root.groups[g].body| == |orig|
        invariant forall x :: 0 <= x < |orig| ==>
          root.groups[g].body[x] == Applied(orig[x], row, if x < i then applied + {k} else applied)
      {
        var e := root.groups[g].body[i];
        if e.isTspan && e.cls == k {
          root.groups := root.groups[g := root.groups[g].(body := root.groups[g].body[i := e.(text := row[k])])];
        }
        i := i + 1;
      }
      keys := keys - {k};
      applied := applied + {k};
    }
    forall i | 0 <= i < |orig|
      ensures root.groups[g].body[i] == FillRegion(orig, row)[i]
    {
      FillRegionSlot(orig, row, i);
    }
    assert root.groups[g] == old(root.groups)[g].(body := FillRegion(orig, row));
  }

  /** An element once the keys in `applied` have been processed. */
  ghost function Applied(e: Element, row: Row, applied: set<string>): Element
  {
    if e.isTspan && e.cls in applied && e.cls in row then e.(text := row[e.cls]) else e
  }

  /** One region of `replace`: take the next row and fill group `g` from it,
      or report that the rows have run out and leave the tree alone. */
  method BindNext(root: PageTree, g: nat, replacements: RowSource) returns (bound: bool)
    requires g < |root.groups| && replacements.Valid()
    modifies root, replacements`pos
    ensures replacements.Valid()
    ensures bound <==> old(replacements.pos) < |replacements.rows|
    ensures bound ==> replacements.pos == old(replacements.pos) + 1
    ensures bound ==> root.groups == old(root.groups)[g := old(root.groups)[g].(body := FillRegion(old(root.groups)[g].body, replacements.rows[old(replacements.pos)]))]
    ensures !bound ==> replacements.pos == old(replacements.pos) && root.groups == old(root.groups)
  {
    var row := replacements.Next();
    if row.None? {
      return false;
    }
    FillRegionAt(root, g, row.value);
    bound := true;
  }

  /** `replace(root, replacements)`: bind one row to each template region in
      document order, stopping at the first region for which no row is left.
      `count` is the number of regions filled; `goAgain` is false exactly when
      the rows ran out first. */
  method Replace(root: PageTree, replacements: RowSource) returns (count: nat, goAgain: bool)
    requires replacements.Valid()
    modifies root, replacements`pos
    ensures replacements.Valid()
    ensures goAgain <==> Regions(old(root.groups)) <= |replacements.rows| - old(replacements.pos)
    ensures count == if goAgain then Regions(old(root.groups)) else |replacements.rows| - old(replacements.pos)
    ensures replacements.pos == old(replacements.pos) + count
    ensures root.groups == FillPage(old(root.groups), replacements.rows[old(replacements.pos)..replacements.pos])
  {
    ghost var orig := root.groups;
    ghost var start := replacements.pos;
    ghost var rows := replacements.rows;
    count := 0;
    var g := 0;
    ghost var used: seq<Row> := [];
    FillPageNoRows(orig);
    while g < |root.groups|
      invariant g <= |orig| == |root.groups|
      invariant replacements.Valid() && replacements.pos == start + count
      invariant used == rows[start..start + count]
      invariant count == Regions(orig[..g])
      invariant root.groups == FillPage(orig, used)
    {
      ScanKeeps(orig, g, used);
      ScanCount(orig, g);
      if IsTemplate(root.groups[g]) {
        var bound := BindNext(root, g, replacements);
        if !bound {
          goAgain := false;
          return;
        }
        ScanFill(orig, g, used, rows[start + count]);
        SliceGrow(rows, start, start + count);
        used := used + [rows[start + count]];
        count := count + 1;
      }
      g := g + 1;
    }
    assert orig[..g] == orig;
    goAgain := true;
  }

  /** The scan reaches `g` having used one row per region before it: the group
      there is still the template's own. */
  lemma ScanKeeps(groups: seq<Group>, g: nat, used: seq<Row>)
    requires g < |groups| && |used| == Regions(groups[..g])
    ensures FillPage(groups, used)[g] == groups[g]
  {
    ScanRest(groups, g, used);
    var prefix := FillPage(groups[..g], used);
    assert (prefix + groups[g..])[g] == groups[g..][0];
  }

  /** The group at `g` counts as one more region if it is one, in which case
      the page has more regions than the ones before `g`. */
  lemma ScanCount(groups: seq<Group>, g: nat)
    requires g < |groups|
    ensures Regions(groups[..g + 1]) == Regions(groups[..g]) + (if IsTemplate(groups[g]) then 1 else 0)
    ensures IsTemplate(groups[g]) ==> Regions(groups[..g]) < Regions(groups)
  {
    var one := [groups[g]];
    assert groups[..g + 1] == groups[..g] + one;
    RegionsAppend(groups[..g], one);
    assert one[1..] == [];
    assert Regions(one) == (if IsTemplate(groups[g]) then 1 else 0) + Regions([]);
    var after := groups[g + 1..];
    assert groups == groups[..g + 1] + after;
    RegionsAppend(groups[..g + 1], after);
  }

  /** The scan meets a region at `g`: filling it from row `r` gives the page
      filled from the rows used so far followed by `r`. */
  lemma ScanFill(groups: seq<Group>, g: nat, used: seq<Row>, r: Row)
    requires g < |groups| && IsTemplate(groups[g]) && |used| == Regions(groups[..g])
    ensures FillPage(groups, used)[g := groups[g].(body := FillRegion(groups[g].body, r))]
      == FillPage(groups, used + [r])
  {
    var filled := groups[g].(body := FillRegion(groups[g].body, r));
    ScanCount(groups, g);
    calc {
      FillPage(groups, used)[g := filled];
      { ScanRest(groups, g, used); }
      (FillPage(groups[..g], used) + groups[g..])[g := filled];
      { FillPrefix(groups, g, used, r); }
      FillPage(groups[..g + 1], used + [r]) + groups[g + 1..];
      { ScanRest(groups, g + 1, used + [r]); }
      FillPage(groups, used + [r]);
    }
  }

  /** Filling the region at `g` extends the filled prefix by one group and the
      rows used by `r`. */
  lemma FillPrefix(groups: seq<Group>, g: nat, used: seq<Row>, r: Row)
    requires g < |groups| && IsTemplate(groups[g]) && |used| == Regions(groups[..g])
    ensures (FillPage(groups[..g], used) + groups[g..])[g := groups[g].(body := FillRegion(groups[g].body, r))]
      == FillPage(groups[..g + 1], used + [r]) + groups[g + 1..]
  {
    var filled := groups[g].(body := FillRegion(groups[g].body, r));
    assert groups[..g + 1] == groups[..g] + [groups[g]];
    SliceCons(groups, g);
    FillPageAppend(groups[..g], [groups[g]], used + [r]);
    assert (used + [r])[..|used|] == used && (used + [r])[|used|..] == [r];
    assert FillPage([groups[g]], [r]) == [filled];
    SpliceAt(FillPage(groups[..g], used), groups[g], filled, groups[g + 1..]);
  }

  /** The scan stops at `g`: the rows used so far went to the regions before
      `g`, so the page is the filled prefix followed by the rest of the
      template, untouched. */
  lemma ScanRest(groups: seq<Group>, g: nat, used: seq<Row>)
    requires g <= |groups| && |used| == Regions(groups[..g])
    ensures FillPage(groups[..g], used) + groups[g..] == FillPage(groups, used)
  {
    FillPageAppend(groups[..g], groups[g..], used);
    FillPageNoRows(groups[g..]);
    assert groups[..g] + groups[g..] == groups;
    assert used[..|used|] == used && used[|used|..] == [];
  }

  lemma SliceCons<T>(s: seq<T>, i: nat)
    requires i < |s|
    ensures s[i..] == [s[i]] + s[i + 1..]
  {
  }

  lemma SliceGrow<T>(s: seq<T>, i: nat, j: nat)
    requires i <= j < |s|
    ensures s[i..j + 1] == s[i..j] + [s[j]]
  {
  }

  lemma SpliceAt<T>(a: seq<T>, x: T, y: T, b: seq<T>)
    ensures (a + [x] + b)[|a| := y] == a + [y] + b
  {
  }

  /** With no rows, a page is left exactly as it was. */
  lemma {:induction false} FillPageNoRows(groups: seq<Group>)
    ensures FillPage(groups, []) == groups
  {
    if groups != [] {
      FillPageNoRows(groups[1..]);
    }
  }

  /** Filling a page split in two: the first part's regions take the first rows
      and the second part continues with the rows after them. */
  lemma {:induction false} FillPageAppend(a: seq<Group>, b: seq<Group>, rows: seq<Row>)
    requires Regions(a) <= |rows|
    ensures FillPage(a + b, rows) == FillPage(a, rows[..Regions(a)]) + FillPage(b, rows[Regions(a)..])
  {
    if a == [] {
      assert a + b == b && rows[..0] == [] && rows[0..] == rows;
    } else {
      assert (a + b)[0] == a[0] && (a + b)[1..] == a[1..] + b;
      if IsTemplate(a[0]) {
        FillPageAppend(a[1..], b, rows[1..]);
        assert rows[..Regions(a)][0] == rows[0];
        assert rows[..Regions(a)][1..] == rows[1..][..Regions(a[1..])];
        assert rows[Regions(a)..] == rows[1..][Regions(a[1..])..];
      } else {
        FillPageAppend(a[1..], b, rows);
      }
    }
  }

  /** One cycle of `generate_page_svg_trees`: a fresh copy of the master tree
      filled by `Replace`. `taken` names the rows the copy was filled with: the
      next group of `Chunks`, or none when no row was left. */
  method NextPage(master: PageTree, source: RowSource, ghost tmpl: seq<Group>, ghost m: nat)
      returns (page: PageTree, count: nat, goAgain: bool, ghost taken: seq<Row>)
    requires source.Valid() && master.groups == tmpl && m == Regions(tmpl) > 0
    modifies source`pos
    ensures source.Valid() && old(source.pos) <= source.pos
    ensures fresh(page) && page.groups == FillPage(tmpl, taken)
    ensures count == |taken|
    ensures Chunks(source.rows[old(source.pos)..], m)
      == (if count > 0 then [taken] else []) + Chunks(source.rows[source.pos..], m)
    ensures goAgain ==> old(source.pos) < source.pos
    ensures !goAgain ==> source.pos == |source.rows|
  {
    ghost var rest := source.rows[source.pos..];
    ghost var before := source.pos;
    page := new PageTree.Copy(master);
    count, goAgain := Replace(page, source);
    taken := source.rows[before..source.pos];
    ChunksNext(rest, m, count);
    assert rest[..count] == taken;
    assert rest[count..] == source.rows[source.pos..];
  }

  /** `generate_page_svg_trees`: repeatedly copy the master tree, fill the copy
      with `Replace`, keep the copy if at least one region was filled, and stop
      after the first call that ran out of rows. `filled` names the rows bound
      on each page. */
  method GeneratePages(master: PageTree, source: RowSource)
      returns (pages: seq<PageTree>, ghost filled: seq<seq<Row>>)
    requires source.Valid()
    requires Regions(master.groups) > 0
    modifies source`pos
    ensures source.Valid() && source.pos == |source.rows|
    ensures master.groups == old(master.groups)
    ensures filled == Chunks(source.rows[old(source.pos)..], Regions(master.groups))
    ensures |pages| == |filled|
    ensures forall j :: 0 <= j < |pages| ==>
      fresh(pages[j]) && pages[j].groups == FillPage(master.groups, filled[j])
    ensures forall i, j :: 0 <= i < j < |pages| ==> pages[i] != pages[j]
  {
    ghost var tmpl := master.groups;
    ghost var m := Regions(tmpl);
    ghost var rest0 := source.rows[source.pos..];
    pages, filled := [], [];
    var goAgain := true;
    while goAgain
      invariant source.Valid() && master.groups == tmpl
      invariant !goAgain ==> source.pos == |source.rows|
      invariant Chunks(rest0, m) == filled + Chunks(source.rows[source.pos..], m)
      invariant |pages| == |filled|
      invariant forall j :: 0 <= j < |pages| ==>
        fresh(pages[j]) && pages[j].groups == FillPage(tmpl, filled[j])
      invariant forall i, j :: 0 <= i < j < |pages| ==> pages[i] != pages[j]
      decreases |source.rows| - source.pos + (if goAgain then 1 else 0)
    {
      var page, count;
      ghost var taken;
      page, count, goAgain, taken := NextPage(master, source, tmpl, m);
      ghost var later := Chunks(source.rows[source.pos..], m);
      if count > 0 {
        assert filled + ([taken] + later) == (filled + [taken]) + later;
        pages := pages + [page];
        filled := filled + [taken];
      } else {
        assert [] + later == later;
      }
    }
    assert source.rows[source.pos..] == [];
  }

  /** The pages of `GeneratePages`, as groups of rows: every row appears once and
      in order, there are ceil(k / m) pages for k rows and m regions per page, no
      page is empty, and every page but the last fills all m regions. */
  lemma PagesFacts(rows: seq<Row>, m: nat, filled: seq<seq<Row>>)
    requires m > 0 && filled == Chunks(rows, m)
    ensures Flatten(filled) == rows
    ensures |filled| == (|rows| + m - 1) / m
    ensures forall j :: 0 <= j < |filled| ==> 0 < |filled[j]| <= m
    ensures forall j :: 0 <= j < |filled| - 1 ==> |filled[j]| == m
  {
    ChunksFlatten(rows, m);
    ChunksCount(rows, m);
    ChunksShape(rows, m);
  }
}
