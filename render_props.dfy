/**
 * What the printed tree looks like, stated over `Tree` and `Forest` (the
 * functions `DisplayTree` is proved to compute) and proved by induction over
 * the directory tree.
 */
module RenderProps {
  import opened FsModel
  import opened Scan
  import opened Classifier
  import opened Render
  import opened Names

  /** A string made of whole four-column indentation units, each a vertical
      bar (`Pipe`) or blank (`Blank`). */
  predicate Glyphs(s: string)
    decreases |s|
  {
    s == [] || (|s| >= 4 && (s[..4] == Pipe || s[..4] == Blank) && Glyphs(s[4..]))
  }

  /** A child line printed under the prefix `p`: it extends `p` by whole
      indentation units and carries a tee or an elbow. */
  predicate Below(l: Line, p: string)
  {
    p <= l.prefix && Glyphs(l.prefix[|p|..]) && (l.connector == Tee || l.connector == Elbow)
  }

  /** A line below `p + x`, for an indentation unit `x`, is below `p`. */
  lemma BelowExtension(l: Line, p: string, x: string)
    requires x == Pipe || x == Blank
    requires Below(l, p + x)
    ensures Below(l, p)
  {
    var s := l.prefix[|p|..];
    assert s[..4] == x;
    assert s[4..] == l.prefix[|p + x|..];
  }

  /** Every line printed for a node below the root is a child line under the
      prefix that node was given. */
  lemma {:induction false} TreeShape(e: Entry, showHidden: bool, maxDepth: Option<nat>, prefix: string, depth: nat)
    requires depth > 0
    ensures forall l :: l in Tree(e, showHidden, maxDepth, prefix, depth).lines ==> Below(l, prefix)
    decreases e, 1
  {
    if TooDeep(maxDepth, depth) || !IsDir(e) || e.contents.ReadError? {
      TreeWithoutListing(e, showHidden, maxDepth, prefix, depth);
    } else {
      ChildrenMembers(e.contents.items, showHidden);
      TreeOfListing(e, showHidden, maxDepth, prefix, depth);
      ForestShape(e, Children(e.contents.items, showHidden), 0, showHidden, maxDepth, prefix, depth);
    }
  }

  /** The same for the lines of a sibling group. */
  lemma {:induction false} ForestShape(parent: Entry, kids: seq<Entry>, i: nat, showHidden: bool, maxDepth: Option<nat>,
                                      prefix: string, depth: nat)
    requires parent.contents.Listing?
    requires forall k :: k in kids ==> Item(k) in parent.contents.items
    ensures forall l :: l in Forest(parent, kids, i, showHidden, maxDepth, prefix, depth).lines ==> Below(l, prefix)
    decreases parent, 0, |kids| - i
  {
    if i < |kids| {
      var k := kids[i];
      var isLast := i == |kids| - 1;
      var sub := if IsDir(k) then Tree(k, showHidden, maxDepth, prefix + Extension(isLast), depth + 1)
                 else Output([], Ok);
      ForestStep(parent, kids, i, showHidden, maxDepth, prefix, depth, sub);
      assert Item(k) in parent.contents.items;
      if IsDir(k) {
        TreeShape(k, showHidden, maxDepth, prefix + Extension(isLast), depth + 1);
        forall l | l in sub.lines ensures Below(l, prefix) {
          BelowExtension(l, prefix, Extension(isLast));
        }
      }
      var line := ChildLine(k, isLast, prefix);
      assert prefix[|prefix|..] == [];
      assert Below(line, prefix);
      if sub.status == Ok {
        ForestShape(parent, kids, i + 1, showHidden, maxDepth, prefix, depth);
      }
    }
  }

  /** The indentation unit a child's subtree is drawn under, read off the
      child's connector: blanks below the elbow, a vertical bar below a tee. */
  function UnitBelow(connector: string): (r: string)
    ensures r == Blank <==> connector == Elbow
  {
    if connector == Elbow then Blank else Pipe
  }

  /**
   * The alignment rule at one level, read left to right over lines printed
   * under `p`: a line directly under `p` is a child's line (tee or elbow) and
   * sets the unit for the lines after it; every other line belongs to the
   * latest child's subtree and sits below `p + unit`. Before the first
   * child's line `unit` is "", and no deeper line may appear there.
   */
  predicate Guided(lines: seq<Line>, p: string, unit: string)
    decreases |lines|
  {
    lines == [] ||
    if lines[0].prefix == p then
      (lines[0].connector == Tee || lines[0].connector == Elbow) && Guided(lines[1..], p, UnitBelow(lines[0].connector))
    else
      unit != "" && Below(lines[0], p + unit) && Guided(lines[1..], p, unit)
  }

  /** A child's line in front: the unit after it is the one its connector picks. */
  lemma GuidedCons(line: Line, rest: seq<Line>, p: string, unit: string)
    requires line.prefix == p && (line.connector == Tee || line.connector == Elbow)
    requires Guided(rest, p, UnitBelow(line.connector))
    ensures Guided([line] + rest, p, unit)
  {
    assert ([line] + rest)[0] == line;
    assert ([line] + rest)[1..] == rest;
  }

  /** Lines of a subtree below `p + unit`, followed by guided lines, stay guided. */
  lemma {:induction false} GuidedDeeper(a: seq<Line>, b: seq<Line>, p: string, unit: string)
    requires unit == Pipe || unit == Blank
    requires forall l :: l in a ==> Below(l, p + unit)
    requires Guided(b, p, unit)
    ensures Guided(a + b, p, unit)
  {
    if a == [] {
      assert a + b == b;
    } else {
      assert a[0] in a;
      assert p + unit <= a[0].prefix;
      assert (a + b)[0] == a[0];
      assert (a + b)[1..] == a[1..] + b;
      GuidedDeeper(a[1..], b, p, unit);
    }
  }

  /** Lines that start with a child's line are guided whatever unit came before. */
  lemma GuidedStart(b: seq<Line>, p: string, unit: string)
    requires Guided(b, p, "")
    ensures Guided(b, p, unit)
  {
  }

  /**
   * Every line of a sibling group sits below the unit its child's connector
   * picks: four blanks under the last child, a vertical bar under every other.
   */
  lemma {:induction false} ForestGuided(parent: Entry, kids: seq<Entry>, i: nat, showHidden: bool, maxDepth: Option<nat>,
                                       prefix: string, depth: nat)
    requires parent.contents.Listing?
    requires forall k :: k in kids ==> Item(k) in parent.contents.items
    ensures Guided(Forest(parent, kids, i, showHidden, maxDepth, prefix, depth).lines, prefix, "")
    decreases |kids| - i
  {
    if i < |kids| {
      var k := kids[i];
      var isLast := i == |kids| - 1;
      var unit := Extension(isLast);
      var sub := if IsDir(k) then Tree(k, showHidden, maxDepth, prefix + unit, depth + 1)
                 else Output([], Ok);
      ForestStep(parent, kids, i, showHidden, maxDepth, prefix, depth, sub);
      assert Item(k) in parent.contents.items;
      if IsDir(k) {
        TreeShape(k, showHidden, maxDepth, prefix + unit, depth + 1);
      }
      var rest := Forest(parent, kids, i + 1, showHidden, maxDepth, prefix, depth);
      if sub.status == Ok {
        ForestGuided(parent, kids, i + 1, showHidden, maxDepth, prefix, depth);
      }
      GuidedStep(Forest(parent, kids, i, showHidden, maxDepth, prefix, depth), ChildLine(k, isLast, prefix), sub, rest, prefix);
    }
  }

  /** One child of a sibling group: its line, then its subtree below the unit
      its connector picks, then (unless the subtree failed) the later siblings. */
  lemma GuidedStep(o: Output, line: Line, sub: Output, rest: Output, p: string)
    requires line.prefix == p && (line.connector == Tee || line.connector == Elbow)
    requires forall l :: l in sub.lines ==> Below(l, p + UnitBelow(line.connector))
    requires sub.status == Ok ==> Guided(rest.lines, p, "")
    requires o == if sub.status == ReadDirFailed then Output([line] + sub.lines, ReadDirFailed)
                  else After([line] + sub.lines, rest)
    ensures Guided(o.lines, p, "")
  {
    var unit := UnitBelow(line.connector);
    var tail: seq<Line> := [];
    if sub.status == Ok {
      tail := rest.lines;
      GuidedStart(tail, p, unit);
      assert o.lines == [line] + (sub.lines + tail);
    } else {
      assert o.lines == [line] + (sub.lines + tail);
    }
    GuidedDeeper(sub.lines, tail, p, unit);
    GuidedCons(line, sub.lines + tail, p, "");
  }

  /**
   * The alignment rule for a whole node: below the root, its lines are
   * guided under its prefix; at the root, the lines after the root's own.
   */
  lemma TreeGuided(e: Entry, showHidden: bool, maxDepth: Option<nat>, prefix: string, depth: nat)
    ensures var lines := Tree(e, showHidden, maxDepth, prefix, depth).lines;
            (depth > 0 ==> Guided(lines, prefix, "")) &&
            (depth == 0 ==> |lines| > 0 && Guided(lines[1..], prefix, ""))
  {
    if TooDeep(maxDepth, depth) || !IsDir(e) || e.contents.ReadError? {
      TreeWithoutListing(e, showHidden, maxDepth, prefix, depth);
      assert [RootLine(e)][1..] == [];
    } else {
      var kids := Children(e.contents.items, showHidden);
      ChildrenMembers(e.contents.items, showHidden);
      TreeOfListing(e, showHidden, maxDepth, prefix, depth);
      ForestGuided(e, kids, 0, showHidden, maxDepth, prefix, depth);
      var f := Forest(e, kids, 0, showHidden, maxDepth, prefix, depth).lines;
      assert ([RootLine(e)] + f)[1..] == f;
      assert [] + f == f;
    }
  }

  /**
   * The root's line comes first, with no prefix and no connector, and it is
   * the only line without a connector.
   */
  lemma RootLineFirst(e: Entry, showHidden: bool, maxDepth: Option<nat>, prefix: string)
    ensures var lines := Tree(e, showHidden, maxDepth, prefix, 0).lines;
            |lines| > 0 && lines[0] == RootLine(e) && lines[0].Text() == RootLabel(e) &&
            forall j :: 0 < j < |lines| ==> lines[j].connector != ""
  {
    var lines := Tree(e, showHidden, maxDepth, prefix, 0).lines;
    if !IsDir(e) || e.contents.ReadError? {
      TreeWithoutListing(e, showHidden, maxDepth, prefix, 0);
    } else {
      ChildrenMembers(e.contents.items, showHidden);
      TreeOfListing(e, showHidden, maxDepth, prefix, 0);
      var rest := Forest(e, Children(e.contents.items, showHidden), 0, showHidden, maxDepth, prefix, 0);
      ForestShape(e, Children(e.contents.items, showHidden), 0, showHidden, maxDepth, prefix, 0);
      assert lines == [RootLine(e)] + rest.lines;
      forall j | 0 < j < |lines| ensures lines[j].connector != "" {
        assert lines[j] in rest.lines;
      }
    }
    assert RootLine(e).Text() == [] + [] + RootLabel(e);
  }

  /**
   * The depth limit: with `maxDepth == Some(m)`, a node at depth `d` printed
   * under `prefix` prints nothing indented more than `4 * (m - d)` columns
   * past `prefix`.
   */
  lemma {:induction false} TreeDepth(e: Entry, showHidden: bool, maxDepth: Option<nat>, prefix: string, depth: nat)
    requires maxDepth.Some?
    ensures forall l :: l in Tree(e, showHidden, maxDepth, prefix, depth).lines ==>
              |l.prefix| + 4 * depth <= |prefix| + 4 * maxDepth.value
    decreases e, 1
  {
    if TooDeep(maxDepth, depth) || !IsDir(e) || e.contents.ReadError? {
      TreeWithoutListing(e, showHidden, maxDepth, prefix, depth);
    } else {
      ChildrenMembers(e.contents.items, showHidden);
      TreeOfListing(e, showHidden, maxDepth, prefix, depth);
      ForestDepth(e, Children(e.contents.items, showHidden), 0, showHidden, maxDepth, prefix, depth);
    }
  }

  /** The same for the lines of a sibling group listed at depth `depth`. */
  lemma {:induction false} ForestDepth(parent: Entry, kids: seq<Entry>, i: nat, showHidden: bool, maxDepth: Option<nat>,
                                      prefix: string, depth: nat)
    requires parent.contents.Listing?
    requires forall k :: k in kids ==> Item(k) in parent.contents.items
    requires maxDepth.Some? && !TooDeep(maxDepth, depth)
    ensures forall l :: l in Forest(parent, kids, i, showHidden, maxDepth, prefix, depth).lines ==>
              |l.prefix| + 4 * depth <= |prefix| + 4 * maxDepth.value
    decreases parent, 0, |kids| - i
  {
    if i < |kids| {
      var k := kids[i];
      var isLast := i == |kids| - 1;
      var sub := if IsDir(k) then Tree(k, showHidden, maxDepth, prefix + Extension(isLast), depth + 1)
                 else Output([], Ok);
      ForestStep(parent, kids, i, showHidden, maxDepth, prefix, depth, sub);
      assert Item(k) in parent.contents.items;
      if IsDir(k) {
        TreeDepth(k, showHidden, maxDepth, prefix + Extension(isLast), depth + 1);
      }
      if sub.status == Ok {
        ForestDepth(parent, kids, i + 1, showHidden, maxDepth, prefix, depth);
      }
    }
  }

  /**
   * Rows appear down to one level below `max_depth` and no further: from the
   * root, no line is indented more than `4 * m` columns.
   */
  lemma LinesWithinDepth(e: Entry, showHidden: bool, m: nat, prefix: string)
    ensures forall l :: l in Tree(e, showHidden, Some(m), prefix, 0).lines ==> |l.prefix| <= |prefix| + 4 * m
  {
    TreeDepth(e, showHidden, Some(m), prefix, 0);
  }

  /** Every name below `e` is valid UTF-8 (so the hidden-file filter can read it). */
  ghost predicate NamesUtf8(e: Entry)
    decreases e
  {
    e.contents.Listing? ==>
      forall k :: Item(k) in e.contents.items ==> k.utf8 && NamesUtf8(k)
  }

  /** A directory's display name starts with a dot exactly when its name does. */
  lemma DisplayNameDot(k: Entry)
    ensures StartsWithDot(DisplayName(k)) == StartsWithDot(k.name)
  {
    if IsDir(k) && |k.name| > 0 {
      assert DisplayName(k)[0] == k.name[0];
    }
  }

  /** Without `show_hidden`, and with every name readable as UTF-8, no child
      line shows a name that starts with a dot. */
  lemma {:induction false} TreeHidden(e: Entry, maxDepth: Option<nat>, prefix: string, depth: nat)
    requires NamesUtf8(e)
    ensures forall l :: l in Tree(e, false, maxDepth, prefix, depth).lines ==>
              l.connector == "" || !StartsWithDot(l.display)
    decreases e, 1
  {
    if TooDeep(maxDepth, depth) || !IsDir(e) || e.contents.ReadError? {
      TreeWithoutListing(e, false, maxDepth, prefix, depth);
    } else {
      ChildrenMembers(e.contents.items, false);
      TreeOfListing(e, false, maxDepth, prefix, depth);
      ForestHidden(e, Children(e.contents.items, false), 0, maxDepth, prefix, depth);
      assert RootLine(e).connector == "";
    }
  }

  /** The same for a sibling group that passed the hidden-file filter. */
  lemma {:induction false} ForestHidden(parent: Entry, kids: seq<Entry>, i: nat, maxDepth: Option<nat>,
                                       prefix: string, depth: nat)
    requires parent.contents.Listing?
    requires forall k :: k in kids ==> Item(k) in parent.contents.items && Shown(k, false)
    requires NamesUtf8(parent)
    ensures forall l :: l in Forest(parent, kids, i, false, maxDepth, prefix, depth).lines ==>
              l.connector == "" || !StartsWithDot(l.display)
    decreases parent, 0, |kids| - i
  {
    if i < |kids| {
      var k := kids[i];
      var isLast := i == |kids| - 1;
      var sub := if IsDir(k) then Tree(k, false, maxDepth, prefix + Extension(isLast), depth + 1)
                 else Output([], Ok);
      ForestStep(parent, kids, i, false, maxDepth, prefix, depth, sub);
      assert Item(k) in parent.contents.items;
      DisplayNameDot(k);
      if IsDir(k) {
        TreeHidden(k, maxDepth, prefix + Extension(isLast), depth + 1);
      }
      if sub.status == Ok {
        ForestHidden(parent, kids, i + 1, maxDepth, prefix, depth);
      }
    }
  }

  /**
   * An independent account of failure: a directory within the depth limit
   * whose listing fails, or that has a shown subdirectory that fails.
   */
  ghost predicate Fails(e: Entry, showHidden: bool, maxDepth: Option<nat>, depth: nat)
    decreases e
  {
    !TooDeep(maxDepth, depth) && IsDir(e) &&
    (e.contents.ReadError? ||
     exists k :: Item(k) in e.contents.items && Shown(k, showHidden) && IsDir(k) && Fails(k, showHidden, maxDepth, depth + 1))
  }

  /** `display_tree` returns the `read_dir` error exactly when some directory
      it reaches cannot be listed. */
  lemma {:induction false} TreeFails(e: Entry, showHidden: bool, maxDepth: Option<nat>, prefix: string, depth: nat)
    ensures Tree(e, showHidden, maxDepth, prefix, depth).status == ReadDirFailed <==> Fails(e, showHidden, maxDepth, depth)
    decreases e, 1
  {
    if TooDeep(maxDepth, depth) || !IsDir(e) || e.contents.ReadError? {
      TreeWithoutListing(e, showHidden, maxDepth, prefix, depth);
    } else {
      var items := e.contents.items;
      var kids := Children(items, showHidden);
      ChildrenMembers(items, showHidden);
      TreeOfListing(e, showHidden, maxDepth, prefix, depth);
      ForestFails(e, kids, 0, showHidden, maxDepth, prefix, depth);
      if Fails(e, showHidden, maxDepth, depth) {
        var k :| Item(k) in items && Shown(k, showHidden) && IsDir(k) && Fails(k, showHidden, maxDepth, depth + 1);
        assert k in kids;
        var j :| 0 <= j < |kids| && kids[j] == k;
        assert SomeFails(kids, 0, showHidden, maxDepth, depth + 1);
      }
      if SomeFails(kids, 0, showHidden, maxDepth, depth + 1) {
        var j :| 0 <= j < |kids| && IsDir(kids[j]) && Fails(kids[j], showHidden, maxDepth, depth + 1);
        assert kids[j] in kids;
      }
    }
  }

  /** Some directory among `kids[i..]` fails. */
  ghost predicate SomeFails(kids: seq<Entry>, i: nat, showHidden: bool, maxDepth: Option<nat>, depth: nat)
  {
    exists j :: i <= j < |kids| && IsDir(kids[j]) && Fails(kids[j], showHidden, maxDepth, depth)
  }

  /** `SomeFails` looks at `kids[i]`, then at the rest. */
  lemma SomeFailsStep(kids: seq<Entry>, i: nat, showHidden: bool, maxDepth: Option<nat>, depth: nat)
    requires i < |kids|
    ensures SomeFails(kids, i, showHidden, maxDepth, depth) <==>
            (IsDir(kids[i]) && Fails(kids[i], showHidden, maxDepth, depth)) || SomeFails(kids, i + 1, showHidden, maxDepth, depth)
  {
    if SomeFails(kids, i, showHidden, maxDepth, depth) && !(IsDir(kids[i]) && Fails(kids[i], showHidden, maxDepth, depth)) {
      var j :| i <= j < |kids| && IsDir(kids[j]) && Fails(kids[j], showHidden, maxDepth, depth);
      assert j != i;
    }
  }

  /** A sibling group fails exactly when one of its directories, from `i` on, fails. */
  lemma {:induction false} ForestFails(parent: Entry, kids: seq<Entry>, i: nat, showHidden: bool, maxDepth: Option<nat>,
                                      prefix: string, depth: nat)
    requires parent.contents.Listing?
    requires forall k :: k in kids ==> Item(k) in parent.contents.items
    ensures Forest(parent, kids, i, showHidden, maxDepth, prefix, depth).status == ReadDirFailed <==>
            SomeFails(kids, i, showHidden, maxDepth, depth + 1)
    decreases parent, 0, |kids| - i
  {
    if i < |kids| {
      var k := kids[i];
      var isLast := i == |kids| - 1;
      var sub := if IsDir(k) then Tree(k, showHidden, maxDepth, prefix + Extension(isLast), depth + 1)
                 else Output([], Ok);
      ForestStep(parent, kids, i, showHidden, maxDepth, prefix, depth, sub);
      SomeFailsStep(kids, i, showHidden, maxDepth, depth + 1);
      assert Item(k) in parent.contents.items;
      if IsDir(k) {
        TreeFails(k, showHidden, maxDepth, prefix + Extension(isLast), depth + 1);
      }
      if sub.status == Ok {
        ForestFails(parent, kids, i + 1, showHidden, maxDepth, prefix, depth);
      }
    }
  }

  /** `l` if it is printed directly under `p`, as a child line. */
  function Keep(l: Line, p: string): seq<Line>
  {
    if l.prefix == p && l.connector != "" then [l] else []
  }

  /** The lines printed directly under `p` (not the root's line, not deeper lines), in order. */
  function Siblings(lines: seq<Line>, p: string): seq<Line>
  {
    if lines == [] then [] else Keep(lines[0], p) + Siblings(lines[1..], p)
  }

  lemma {:induction false} SiblingsAppend(a: seq<Line>, b: seq<Line>, p: string)
    ensures Siblings(a + b, p) == Siblings(a, p) + Siblings(b, p)
  {
    if a == [] {
      assert a + b == b;
    } else {
      var x := Keep(a[0], p);
      calc {
        Siblings(a + b, p);
        { assert (a + b)[0] == a[0]; assert (a + b)[1..] == a[1..] + b; }
        x + Siblings(a[1..] + b, p);
        { SiblingsAppend(a[1..], b, p); }
        x + (Siblings(a[1..], p) + Siblings(b, p));
        x + Siblings(a[1..], p) + Siblings(b, p);
      }
    }
  }

  /** Lines that are all strictly deeper than `p` contribute no sibling line. */
  lemma {:induction false} SiblingsOfDeeper(lines: seq<Line>, p: string)
    requires forall l :: l in lines ==> |l.prefix| > |p|
    ensures Siblings(lines, p) == []
  {
    if lines != [] {
      assert lines[0] in lines;
      SiblingsOfDeeper(lines[1..], p);
    }
  }

  /** A child's line followed by its (deeper) subtree contributes just that line. */
  lemma SiblingsOfStep(line: Line, sub: seq<Line>, p: string)
    requires line.prefix == p && line.connector != ""
    requires forall l :: l in sub ==> |l.prefix| > |p|
    ensures Siblings([line] + sub, p) == [line]
  {
    SiblingsOfDeeper(sub, p);
    assert ([line] + sub)[1..] == sub;
  }

  /** The lines `kids[i..]` get in a sibling group printed under `p`: an
      elbow on the last of `kids`, a tee on every other. */
  function ChildLines(kids: seq<Entry>, i: nat, p: string): (r: seq<Line>)
    ensures |r| == if i < |kids| then |kids| - i else 0
    decreases |kids| - i
  {
    if i >= |kids| then []
    else [ChildLine(kids[i], i == |kids| - 1, p)] + ChildLines(kids, i + 1, p)
  }

  /** The j-th line of `ChildLines` from `i` is `kids[i + j]`'s, with the
      elbow exactly when that child is the last. */
  lemma {:induction false} ChildLinesAt(kids: seq<Entry>, i: nat, p: string)
    ensures forall j :: 0 <= j < |ChildLines(kids, i, p)| ==>
              ChildLines(kids, i, p)[j] == ChildLine(kids[i + j], i + j == |kids| - 1, p)
    decreases |kids| - i
  {
    if i < |kids| {
      var r := ChildLines(kids, i, p);
      var t := ChildLines(kids, i + 1, p);
      ChildLinesAt(kids, i + 1, p);
      forall j | 0 < j < |r| ensures r[j] == ChildLine(kids[i + j], i + j == |kids| - 1, p) {
        assert r[j] == t[j - 1];
      }
    }
  }

  /** A prefix agrees with the sequence it is a prefix of, index by index. */
  lemma PrefixAt(s: seq<Line>, c: seq<Line>)
    requires s <= c
    ensures forall j :: 0 <= j < |s| ==> s[j] == c[j]
  {
  }

  /** Putting the same line in front keeps one sequence a prefix of another. */
  lemma PrefixCons(x: Line, a: seq<Line>, b: seq<Line>)
    requires a <= b
    ensures [x] + a <= [x] + b
  {
    assert ([x] + b)[..|[x] + a|] == [x] + b[..|a|];
  }

  /** Lines below a longer prefix are deeper than the shorter one. */
  lemma BelowIsDeeper(lines: seq<Line>, p: string, x: string)
    requires |x| == 4
    requires forall l :: l in lines ==> Below(l, p + x)
    ensures forall l :: l in lines ==> |l.prefix| > |p|
  {
    forall l | l in lines ensures |l.prefix| > |p| {
      assert p + x <= l.prefix;
    }
  }

  /** The lines of a sibling group directly under its prefix: the first
      child's line, then, unless its subtree `sub` failed, those of the later
      children. */
  lemma SiblingsStep(parent: Entry, kids: seq<Entry>, i: nat, showHidden: bool, maxDepth: Option<nat>,
                     prefix: string, depth: nat, sub: Output)
    requires parent.contents.Listing?
    requires forall k :: k in kids ==> Item(k) in parent.contents.items
    requires i < |kids|
    requires sub == if IsDir(kids[i]) then Tree(kids[i], showHidden, maxDepth, prefix + Extension(i == |kids| - 1), depth + 1)
                    else Output([], Ok)
    ensures var o := Forest(parent, kids, i, showHidden, maxDepth, prefix, depth);
            var rest := Forest(parent, kids, i + 1, showHidden, maxDepth, prefix, depth);
            var line := ChildLine(kids[i], i == |kids| - 1, prefix);
            if sub.status == ReadDirFailed then Siblings(o.lines, prefix) == [line]
            else Siblings(o.lines, prefix) == [line] + Siblings(rest.lines, prefix) && o.status == rest.status
  {
    var k := kids[i];
    var isLast := i == |kids| - 1;
    var line := ChildLine(k, isLast, prefix);
    ForestStep(parent, kids, i, showHidden, maxDepth, prefix, depth, sub);
    if IsDir(k) {
      TreeShape(k, showHidden, maxDepth, prefix + Extension(isLast), depth + 1);
      BelowIsDeeper(sub.lines, prefix, Extension(isLast));
    }
    SiblingsOfStep(line, sub.lines, prefix);
    if sub.status == Ok {
      SiblingsAppend([line] + sub.lines, Forest(parent, kids, i + 1, showHidden, maxDepth, prefix, depth).lines, prefix);
    }
  }

  /** A sibling group prints, directly under its prefix, the lines of its
      children in order; all of them when no subtree fails, and otherwise
      those up to the failing one. */
  lemma {:induction false} ForestSiblings(parent: Entry, kids: seq<Entry>, i: nat, showHidden: bool, maxDepth: Option<nat>,
                                         prefix: string, depth: nat)
    requires parent.contents.Listing?
    requires forall k :: k in kids ==> Item(k) in parent.contents.items
    requires i <= |kids|
    ensures var o := Forest(parent, kids, i, showHidden, maxDepth, prefix, depth);
            Siblings(o.lines, prefix) <= ChildLines(kids, i, prefix) &&
            (o.status == Ok ==> Siblings(o.lines, prefix) == ChildLines(kids, i, prefix))
    decreases |kids| - i
  {
    var o := Forest(parent, kids, i, showHidden, maxDepth, prefix, depth);
    if i < |kids| {
      var line := ChildLine(kids[i], i == |kids| - 1, prefix);
      var rest := Forest(parent, kids, i + 1, showHidden, maxDepth, prefix, depth);
      var sub := if IsDir(kids[i]) then Tree(kids[i], showHidden, maxDepth, prefix + Extension(i == |kids| - 1), depth + 1)
                 else Output([], Ok);
      SiblingsStep(parent, kids, i, showHidden, maxDepth, prefix, depth, sub);
      if sub.status == ReadDirFailed {
        PrefixCons(line, [], ChildLines(kids, i + 1, prefix));
      } else {
        ForestSiblings(parent, kids, i + 1, showHidden, maxDepth, prefix, depth);
        PrefixCons(line, Siblings(rest.lines, prefix), ChildLines(kids, i + 1, prefix));
      }
    } else {
      assert o.lines == [];
    }
  }

  /**
   * A listed directory prints, directly under its prefix, one line per
   * child in the sorted order of its shown children, the last with an elbow
   * and every other with a tee; when the listing completes there is one line
   * for every child.
   */
  lemma DirectoryChildren(e: Entry, showHidden: bool, maxDepth: Option<nat>, prefix: string, depth: nat)
    requires !TooDeep(maxDepth, depth) && IsDir(e) && e.contents.Listing?
    ensures var o := Tree(e, showHidden, maxDepth, prefix, depth);
            var kids := Children(e.contents.items, showHidden);
            Siblings(o.lines, prefix) <= ChildLines(kids, 0, prefix) &&
            (o.status == Ok ==> Siblings(o.lines, prefix) == ChildLines(kids, 0, prefix))
  {
    var kids := Children(e.contents.items, showHidden);
    ChildrenMembers(e.contents.items, showHidden);
    TreeOfListing(e, showHidden, maxDepth, prefix, depth);
    var rest := Forest(e, kids, 0, showHidden, maxDepth, prefix, depth);
    ForestSiblings(e, kids, 0, showHidden, maxDepth, prefix, depth);
    var head := if depth == 0 then [RootLine(e)] else [];
    SiblingsAppend(head, rest.lines, prefix);
    assert Siblings(head, prefix) == [];
  }

  /**
   * The same, line by line: the j-th line directly under the prefix is the
   * j-th shown child's, with `└── ` exactly when that child is the last;
   * there is at most one such line per child, and one for every child when
   * the result is `Ok`.
   */
  lemma DirectoryChildrenAt(e: Entry, showHidden: bool, maxDepth: Option<nat>, prefix: string, depth: nat)
    requires !TooDeep(maxDepth, depth) && IsDir(e) && e.contents.Listing?
    ensures var o := Tree(e, showHidden, maxDepth, prefix, depth);
            var kids := Children(e.contents.items, showHidden);
            var s := Siblings(o.lines, prefix);
            |s| <= |kids| && (o.status == Ok ==> |s| == |kids|) &&
            forall j :: 0 <= j < |s| ==> s[j] == ChildLine(kids[j], j == |kids| - 1, prefix)
  {
    var kids := Children(e.contents.items, showHidden);
    var o := Tree(e, showHidden, maxDepth, prefix, depth);
    DirectoryChildren(e, showHidden, maxDepth, prefix, depth);
    ChildLinesAt(kids, 0, prefix);
    PrefixAt(Siblings(o.lines, prefix), ChildLines(kids, 0, prefix));
  }

  /** `lines` ends with `t`. */
  predicate EndsWith(lines: seq<Line>, t: seq<Line>)
  {
    |t| <= |lines| && lines[|lines| - |t|..] == t
  }

  /** A suffix of `b` is a suffix of `a + b`. */
  lemma SuffixAppend(a: seq<Line>, b: seq<Line>, t: seq<Line>)
    requires EndsWith(b, t)
    ensures EndsWith(a + b, t)
  {
    assert (a + b)[|a + b| - |t|..] == b[|b| - |t|..];
  }

  /** The lines of the children `kids[i..j]`, `kids[j]` included, as `ChildLines` draws them. */
  function ChildLinesTo(kids: seq<Entry>, i: nat, j: nat, p: string): seq<Line>
    decreases |kids| - i
  {
    if i >= |kids| || i > j then []
    else [ChildLine(kids[i], i == |kids| - 1, p)] + ChildLinesTo(kids, i + 1, j, p)
  }

  /** `ChildLinesTo` is the first `j - i + 1` lines of `ChildLines`. */
  lemma {:induction false} ChildLinesToTake(kids: seq<Entry>, i: nat, j: nat, p: string)
    requires i <= j < |kids|
    ensures ChildLinesTo(kids, i, j, p) == ChildLines(kids, i, p)[..j - i + 1]
    decreases |kids| - i
  {
    var line := ChildLine(kids[i], i == |kids| - 1, p);
    assert ChildLines(kids, i, p) == [line] + ChildLines(kids, i + 1, p);
    if i < j {
      ChildLinesToTake(kids, i + 1, j, p);
      assert ChildLines(kids, i, p)[..j - i + 1] == [line] + ChildLines(kids, i + 1, p)[..j - i];
    } else {
      assert ChildLinesTo(kids, i + 1, j, p) == [];
      assert ChildLines(kids, i, p)[..1] == [line];
    }
  }

  /** A child whose subtree fails ends its sibling group with its own line
      (the only one directly under the prefix) and that subtree's lines. */
  lemma StopStepFails(parent: Entry, kids: seq<Entry>, i: nat, showHidden: bool, maxDepth: Option<nat>,
                      prefix: string, depth: nat)
    requires parent.contents.Listing?
    requires forall k :: k in kids ==> Item(k) in parent.contents.items
    requires i < |kids|
    requires IsDir(kids[i]) && Fails(kids[i], showHidden, maxDepth, depth + 1)
    ensures var o := Forest(parent, kids, i, showHidden, maxDepth, prefix, depth);
            var line := ChildLine(kids[i], i == |kids| - 1, prefix);
            o.status == ReadDirFailed &&
            o.lines == [line] + Tree(kids[i], showHidden, maxDepth, prefix + Extension(i == |kids| - 1), depth + 1).lines &&
            Siblings(o.lines, prefix) == [line]
  {
    var k := kids[i];
    var isLast := i == |kids| - 1;
    var sub := Tree(k, showHidden, maxDepth, prefix + Extension(isLast), depth + 1);
    ForestStep(parent, kids, i, showHidden, maxDepth, prefix, depth, sub);
    SiblingsStep(parent, kids, i, showHidden, maxDepth, prefix, depth, sub);
    assert Item(k) in parent.contents.items;
    TreeFails(k, showHidden, maxDepth, prefix + Extension(isLast), depth + 1);
  }

  /** Any other child adds its line (the only one directly under the prefix)
      and its subtree's lines, and the group goes on. */
  lemma StopStepPasses(parent: Entry, kids: seq<Entry>, i: nat, showHidden: bool, maxDepth: Option<nat>,
                       prefix: string, depth: nat)
    requires parent.contents.Listing?
    requires forall k :: k in kids ==> Item(k) in parent.contents.items
    requires i < |kids|
    requires !(IsDir(kids[i]) && Fails(kids[i], showHidden, maxDepth, depth + 1))
    ensures var o := Forest(parent, kids, i, showHidden, maxDepth, prefix, depth);
            var rest := Forest(parent, kids, i + 1, showHidden, maxDepth, prefix, depth);
            var line := ChildLine(kids[i], i == |kids| - 1, prefix);
            var sub := if IsDir(kids[i]) then Tree(kids[i], showHidden, maxDepth, prefix + Extension(i == |kids| - 1), depth + 1).lines
                       else [];
            o.status == rest.status && o.lines == ([line] + sub) + rest.lines &&
            Siblings(o.lines, prefix) == [line] + Siblings(rest.lines, prefix)
  {
    var k := kids[i];
    var isLast := i == |kids| - 1;
    var sub := if IsDir(k) then Tree(k, showHidden, maxDepth, prefix + Extension(isLast), depth + 1)
               else Output([], Ok);
    ForestStep(parent, kids, i, showHidden, maxDepth, prefix, depth, sub);
    SiblingsStep(parent, kids, i, showHidden, maxDepth, prefix, depth, sub);
    assert Item(k) in parent.contents.items;
    if IsDir(k) {
      TreeFails(k, showHidden, maxDepth, prefix + Extension(isLast), depth + 1);
    }
  }

  /** The index of the first directory among `kids[i..]` whose subtree
      fails, or `|kids|` when there is none. */
  ghost function FirstFail(kids: seq<Entry>, i: nat, showHidden: bool, maxDepth: Option<nat>, depth: nat): (r: nat)
    ensures i <= r || r == |kids|
    ensures r <= |kids|
    decreases |kids| - i
  {
    if i >= |kids| then |kids|
    else if IsDir(kids[i]) && Fails(kids[i], showHidden, maxDepth, depth) then i
    else FirstFail(kids, i + 1, showHidden, maxDepth, depth)
  }

  /** `FirstFail` finds a failing directory, and none before it. */
  lemma {:induction false} FirstFailIsFirst(kids: seq<Entry>, i: nat, showHidden: bool, maxDepth: Option<nat>, depth: nat)
    ensures var j := FirstFail(kids, i, showHidden, maxDepth, depth);
            (j < |kids| ==> IsDir(kids[j]) && Fails(kids[j], showHidden, maxDepth, depth)) &&
            forall t :: i <= t < j ==> !(IsDir(kids[t]) && Fails(kids[t], showHidden, maxDepth, depth))
    decreases |kids| - i
  {
    if i < |kids| && !(IsDir(kids[i]) && Fails(kids[i], showHidden, maxDepth, depth)) {
      FirstFailIsFirst(kids, i + 1, showHidden, maxDepth, depth);
    }
  }

  /** Some directory among `kids[i..]` fails exactly when `FirstFail` finds one. */
  lemma {:induction false} FirstFailFound(kids: seq<Entry>, i: nat, showHidden: bool, maxDepth: Option<nat>, depth: nat)
    ensures SomeFails(kids, i, showHidden, maxDepth, depth) <==> FirstFail(kids, i, showHidden, maxDepth, depth) < |kids|
    decreases |kids| - i
  {
    if i < |kids| {
      SomeFailsStep(kids, i, showHidden, maxDepth, depth);
      FirstFailFound(kids, i + 1, showHidden, maxDepth, depth);
    }
  }

  /**
   * Where a failing sibling group stops: at `kids[j]`, the first child whose
   * subtree fails. Directly under the prefix, the children's lines up to and
   * including `kids[j]`'s are printed; the output ends with `kids[j]`'s line
   * followed by every line its subtree printed before the error.
   */
  lemma {:induction false} ForestStopsAt(parent: Entry, kids: seq<Entry>, i: nat, showHidden: bool,
                                        maxDepth: Option<nat>, prefix: string, depth: nat)
    requires parent.contents.Listing?
    requires forall k :: k in kids ==> Item(k) in parent.contents.items
    ensures var o := Forest(parent, kids, i, showHidden, maxDepth, prefix, depth);
            var j := FirstFail(kids, i, showHidden, maxDepth, depth + 1);
            j < |kids| ==>
              var last := [ChildLine(kids[j], j == |kids| - 1, prefix)]
                          + Tree(kids[j], showHidden, maxDepth, prefix + Extension(j == |kids| - 1), depth + 1).lines;
              o.status == ReadDirFailed &&
              Siblings(o.lines, prefix) == ChildLinesTo(kids, i, j, prefix) &&
              EndsWith(o.lines, last)
    decreases |kids| - i
  {
    if i < |kids| {
      if IsDir(kids[i]) && Fails(kids[i], showHidden, maxDepth, depth + 1) {
        ForestStopsHere(parent, kids, i, showHidden, maxDepth, prefix, depth);
      } else {
        ForestStopsLater(parent, kids, i, showHidden, maxDepth, prefix, depth);
      }
    }
  }

  /** The inductive step of `ForestStopsAt`: a child that does not fail is passed over. */
  lemma {:induction false} ForestStopsLater(parent: Entry, kids: seq<Entry>, i: nat, showHidden: bool,
                                           maxDepth: Option<nat>, prefix: string, depth: nat)
    requires parent.contents.Listing?
    requires forall k :: k in kids ==> Item(k) in parent.contents.items
    requires i < |kids| && !(IsDir(kids[i]) && Fails(kids[i], showHidden, maxDepth, depth + 1))
    ensures var o := Forest(parent, kids, i, showHidden, maxDepth, prefix, depth);
            var j := FirstFail(kids, i, showHidden, maxDepth, depth + 1);
            j < |kids| ==>
              var last := [ChildLine(kids[j], j == |kids| - 1, prefix)]
                          + Tree(kids[j], showHidden, maxDepth, prefix + Extension(j == |kids| - 1), depth + 1).lines;
              o.status == ReadDirFailed &&
              Siblings(o.lines, prefix) == ChildLinesTo(kids, i, j, prefix) &&
              EndsWith(o.lines, last)
    decreases |kids| - i, 0
  {
    var j := FirstFail(kids, i + 1, showHidden, maxDepth, depth + 1);
    ForestStopsAt(parent, kids, i + 1, showHidden, maxDepth, prefix, depth);
    if j < |kids| {
      StopStepPasses(parent, kids, i, showHidden, maxDepth, prefix, depth);
      var sub := if IsDir(kids[i]) then Tree(kids[i], showHidden, maxDepth, prefix + Extension(i == |kids| - 1), depth + 1).lines
                 else [];
      var last := [ChildLine(kids[j], j == |kids| - 1, prefix)]
                  + Tree(kids[j], showHidden, maxDepth, prefix + Extension(j == |kids| - 1), depth + 1).lines;
      StoppedLater(Forest(parent, kids, i, showHidden, maxDepth, prefix, depth),
                   Forest(parent, kids, i + 1, showHidden, maxDepth, prefix, depth),
                   ChildLine(kids[i], i == |kids| - 1, prefix), sub, last, ChildLinesTo(kids, i + 1, j, prefix), prefix);
    }
  }

  /** The base case of `ForestStopsAt`: the failing child is the first one looked at. */
  lemma ForestStopsHere(parent: Entry, kids: seq<Entry>, i: nat, showHidden: bool,
                        maxDepth: Option<nat>, prefix: string, depth: nat)
    requires parent.contents.Listing?
    requires forall k :: k in kids ==> Item(k) in parent.contents.items
    requires i < |kids|
    requires IsDir(kids[i]) && Fails(kids[i], showHidden, maxDepth, depth + 1)
    ensures var o := Forest(parent, kids, i, showHidden, maxDepth, prefix, depth);
            var last := [ChildLine(kids[i], i == |kids| - 1, prefix)]
                        + Tree(kids[i], showHidden, maxDepth, prefix + Extension(i == |kids| - 1), depth + 1).lines;
            o.status == ReadDirFailed &&
            Siblings(o.lines, prefix) == ChildLinesTo(kids, i, i, prefix) &&
            EndsWith(o.lines, last)
  {
    StopStepFails(parent, kids, i, showHidden, maxDepth, prefix, depth);
    var o := Forest(parent, kids, i, showHidden, maxDepth, prefix, depth);
    StoppedHere(o, ChildLine(kids[i], i == |kids| - 1, prefix), o.lines, ChildLinesTo(kids, i + 1, i, prefix), prefix);
  }

  /** The last step of `ForestStopsHere`, on the output alone. */
  lemma StoppedHere(o: Output, line: Line, last: seq<Line>, later: seq<Line>, p: string)
    requires o.status == ReadDirFailed && o.lines == last && Siblings(o.lines, p) == [line]
    requires later == []
    ensures Siblings(o.lines, p) == [line] + later && EndsWith(o.lines, last)
  {
    assert [line] + later == [line];
    assert o.lines[0..] == o.lines;
  }

  /** The inductive step of `ForestStopsAt`, on the outputs alone. */
  lemma StoppedLater(o: Output, rest: Output, line: Line, sub: seq<Line>, last: seq<Line>, later: seq<Line>,
                     p: string)
    requires o.status == rest.status && o.lines == ([line] + sub) + rest.lines
    requires Siblings(o.lines, p) == [line] + Siblings(rest.lines, p)
    requires rest.status == ReadDirFailed && Siblings(rest.lines, p) == later
    requires EndsWith(rest.lines, last)
    ensures o.status == ReadDirFailed && Siblings(o.lines, p) == [line] + later &&
            EndsWith(o.lines, last)
  {
    SuffixAppend([line] + sub, rest.lines, last);
  }

  /**
   * A listed directory's traversal fails exactly when one of its shown
   * children's subtrees fails.
   */
  lemma DirectoryFails(e: Entry, showHidden: bool, maxDepth: Option<nat>, prefix: string, depth: nat)
    requires !TooDeep(maxDepth, depth) && IsDir(e) && e.contents.Listing?
    ensures var kids := Children(e.contents.items, showHidden);
            Tree(e, showHidden, maxDepth, prefix, depth).status == ReadDirFailed <==>
            FirstFail(kids, 0, showHidden, maxDepth, depth + 1) < |kids|
  {
    var kids := Children(e.contents.items, showHidden);
    ChildrenMembers(e.contents.items, showHidden);
    TreeOfListing(e, showHidden, maxDepth, prefix, depth);
    ForestFails(e, kids, 0, showHidden, maxDepth, prefix, depth);
    FirstFailFound(kids, 0, showHidden, maxDepth, depth + 1);
  }

  /**
   * When the listing fails at the first failing child `j`, the lines directly
   * under the prefix are the lines of children 0 to `j`, and the output ends
   * with `j`'s line followed by what its own subtree printed.
   */
  lemma DirectoryStopsAt(e: Entry, showHidden: bool, maxDepth: Option<nat>, prefix: string, depth: nat)
    requires !TooDeep(maxDepth, depth) && IsDir(e) && e.contents.Listing?
    ensures var o := Tree(e, showHidden, maxDepth, prefix, depth);
            var kids := Children(e.contents.items, showHidden);
            var j := FirstFail(kids, 0, showHidden, maxDepth, depth + 1);
            j < |kids| ==>
              var last := [ChildLine(kids[j], j == |kids| - 1, prefix)]
                          + Tree(kids[j], showHidden, maxDepth, prefix + Extension(j == |kids| - 1), depth + 1).lines;
              Siblings(o.lines, prefix) == ChildLines(kids, 0, prefix)[..j + 1] &&
              EndsWith(o.lines, last)
  {
    var kids := Children(e.contents.items, showHidden);
    var j := FirstFail(kids, 0, showHidden, maxDepth, depth + 1);
    if j < |kids| {
      ChildrenMembers(e.contents.items, showHidden);
      TreeOfListing(e, showHidden, maxDepth, prefix, depth);
      ForestStopsAt(e, kids, 0, showHidden, maxDepth, prefix, depth);
      ChildLinesToTake(kids, 0, j, prefix);
      var last := [ChildLine(kids[j], j == |kids| - 1, prefix)]
                  + Tree(kids[j], showHidden, maxDepth, prefix + Extension(j == |kids| - 1), depth + 1).lines;
      StoppedUnder(if depth == 0 then [RootLine(e)] else [], Forest(e, kids, 0, showHidden, maxDepth, prefix, depth),
                   last, ChildLinesTo(kids, 0, j, prefix), prefix);
    }
  }

  /** The head printed before a node's children (the root's line, or nothing)
      adds no sibling line and does not change how the output ends. */
  lemma StoppedUnder(head: seq<Line>, f: Output, last: seq<Line>, want: seq<Line>, p: string)
    requires head == [] || (|head| == 1 && head[0].connector == "")
    requires Siblings(f.lines, p) == want && EndsWith(f.lines, last)
    ensures Siblings(After(head, f).lines, p) == want && EndsWith(After(head, f).lines, last)
  {
    SiblingsAppend(head, f.lines, p);
    if head != [] {
      assert Siblings(head, p) == Keep(head[0], p) + Siblings(head[1..], p);
    }
    SuffixAppend(head, f.lines, last);
  }


  /** The text of every line, in order. */
  function Texts(lines: seq<Line>): (r: seq<string>)
    ensures |r| == |lines|
  {
    if lines == [] then [] else [lines[0].Text()] + Texts(lines[1..])
  }

  // A small tree: `r` holds a hidden file `.h`, an item that cannot be read,
  // an executable file `b` and a directory `a`; `a` holds the directory `y`,
  // which holds the file `z`.
  const DirMeta := Some(Meta(false, true, 0x1ED))
  const ExampleZ := Entry("z", true, Some(Meta(false, false, 0x1A4)), Some(Meta(false, false, 0x1A4)), ReadError)
  const ExampleY := Entry("y", true, DirMeta, DirMeta, Listing([Item(ExampleZ)]))
  const ExampleA := Entry("a", true, DirMeta, DirMeta, Listing([Item(ExampleY)]))
  const ExampleB := Entry("b", true, Some(Meta(false, false, 0x1ED)), Some(Meta(false, false, 0x1ED)), ReadError)
  const ExampleH := Entry(".h", true, Some(Meta(false, false, 0x1A4)), Some(Meta(false, false, 0x1A4)), ReadError)
  const ExampleR := Entry("r", true, DirMeta, DirMeta, Listing([Item(ExampleH), Item(ExampleB), ItemError, Item(ExampleA)]))

  /** What the listings of the example show: `r` shows `a` then `b`, `a` shows `y`. */
  lemma ExampleChildren(r: Entry, a: Entry)
    requires r == ExampleR && a == ExampleA
    ensures Children(r.contents.items, false) == [ExampleA, ExampleB]
    ensures Children(a.contents.items, false) == [ExampleY]
  {
    var b, y := ExampleB, ExampleY;
    var items := r.contents.items;
    assert items[3..] == [Item(a)] && Visible(items[3..][1..], false) == [];
    assert Visible(items[3..], false) == [a];
    assert items[2..][1..] == items[3..];
    assert Visible(items[2..], false) == [a];
    assert items[1..][1..] == items[2..];
    assert Visible(items[1..], false) == [b, a];
    assert !Shown(ExampleH, false);
    assert Visible(items, false) == [b, a];
    assert SortByName([b]) == [b];
    assert [b, a][..1] == [b];
    assert NameLt(a.name, b.name);
    assert Insert(a, [b]) == [a, b];
    assert [Item(y)][1..] == [];
    assert Visible(a.contents.items, false) == [y];
    assert SortByName([y]) == [y];
  }

  /** The directory `a`, at depth 1 under the prefix `Pipe`, prints only `y`'s
      line: `y` is at depth 2, past the limit, and lists nothing. */
  lemma ExampleSubtree(a: Entry, p: string)
    requires a == ExampleA && p == "" + Pipe
    ensures Tree(a, false, Some(1), p, 1) == Output([ChildLine(ExampleY, true, p)], Ok)
  {
    var y := ExampleY;
    ExampleChildren(ExampleR, a);
    ChildrenMembers(a.contents.items, false);
    TreeWithoutListing(y, false, Some(1), p + Extension(true), 2);
    ForestStep(a, [y], 0, false, Some(1), p, 1, Output([], Ok));
    ForestDone(a, [y], 1, false, Some(1), p, 1, []);
    TreeOfListing(a, false, Some(1), p, 1);
  }

  /** The texts of four lines, one by one. */
  lemma TextsOfFour(lines: seq<Line>)
    requires |lines| == 4
    ensures Texts(lines) == [lines[0].Text(), lines[1].Text(), lines[2].Text(), lines[3].Text()]
  {
    var t3 := lines[1..][1..][1..];
    assert t3[1..] == [];
    assert Texts(t3) == [lines[3].Text()];
    assert Texts(lines[1..][1..]) == [lines[2].Text()] + Texts(t3);
    assert Texts(lines[1..]) == [lines[1].Text()] + Texts(lines[1..][1..]);
  }

  /** The last child of `r`, the file `b`, prints its own line only. */
  lemma ExampleLastChild(r: Entry, a: Entry, b: Entry)
    requires r == ExampleR && a == ExampleA && b == ExampleB
    requires forall k :: k in [a, b] ==> Item(k) in r.contents.items
    ensures Forest(r, [a, b], 1, false, Some(1), "", 0) == Output([ChildLine(b, true, "")], Ok)
  {
    ForestDone(r, [a, b], 2, false, Some(1), "", 0, []);
    ForestStep(r, [a, b], 1, false, Some(1), "", 0, Output([], Ok));
  }

  /** The children of `r` print `a/`, then `a`'s subtree, then `b`. */
  lemma ExampleForest(r: Entry, a: Entry, b: Entry)
    requires r == ExampleR && a == ExampleA && b == ExampleB
    requires forall k :: k in [a, b] ==> Item(k) in r.contents.items
    ensures Forest(r, [a, b], 0, false, Some(1), "", 0)
         == Output([ChildLine(a, false, ""), ChildLine(ExampleY, true, "" + Pipe), ChildLine(b, true, "")], Ok)
  {
    var bLine := ChildLine(b, true, "");
    ExampleLastChild(r, a, b);
    ExampleSubtree(a, "" + Pipe);
    var aLines := [ChildLine(ExampleY, true, "" + Pipe)];
    ForestStep(r, [a, b], 0, false, Some(1), "", 0, Output(aLines, Ok));
    assert [ChildLine(a, false, "")] + aLines + [bLine]
        == [ChildLine(a, false, ""), ChildLine(ExampleY, true, "" + Pipe), bLine];
  }

  /**
   * That tree drawn with `max_depth` 1 and hidden files off: the hidden file
   * and the unreadable item are not shown, `a/` sorts first and gets a tee,
   * `y/` (one level below the limit) is still listed, and `z` is not.
   */
  lemma ExampleDepthOne(r: Entry)
    requires r == ExampleR
    ensures Tree(r, false, Some(1), "", 0)
         == Output([RootLine(r)] + [ChildLine(ExampleA, false, ""), ChildLine(ExampleY, true, "" + Pipe),
                                    ChildLine(ExampleB, true, "")], Ok)
  {
    ExampleChildren(r, ExampleA);
    ChildrenMembers(r.contents.items, false);
    ExampleForest(r, ExampleA, ExampleB);
    TreeOfListing(r, false, Some(1), "", 0);
  }

  /** The same drawing as text. */
  lemma ExampleDepthOneText(r: Entry)
    requires r == ExampleR
    ensures var o := Tree(r, false, Some(1), "", 0);
            o.status == Ok && Texts(o.lines) == ["r", Tee + "a/", Pipe + Elbow + "y/", Elbow + "b"]
  {
    ExampleDepthOne(r);
    ExampleLineTexts(r.name, ExampleA, ExampleY, ExampleB, Tree(r, false, Some(1), "", 0).lines);
  }

  /** The texts of the four lines drawn for the example. */
  lemma ExampleLineTexts(rootName: string, a: Entry, y: Entry, b: Entry, lines: seq<Line>)
    requires rootName == "r" && a == ExampleA && y == ExampleY && b == ExampleB
    requires lines == [Line("", "", rootName, Colorize(ExampleR))]
                    + [ChildLine(a, false, ""), ChildLine(y, true, "" + Pipe), ChildLine(b, true, "")]
    ensures Texts(lines) == ["r", Tee + "a/", Pipe + Elbow + "y/", Elbow + "b"]
  {
    assert lines[0].Text() == "r";
    assert lines[1].Text() == Tee + "a/";
    assert lines[2].Text() == Pipe + Elbow + "y/";
    assert lines[3].Text() == Elbow + "b";
    TextsOfFour(lines);
  }
}
