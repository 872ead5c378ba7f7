/**
 * The static tree printer: a depth-first traversal that prints one line per
 * entry, each line being the accumulated prefix, a connector glyph and the
 * entry's display name, coloured by the classifier.
 */
module Render {
  import opened FsModel
  import opened Scan
  import opened Classifier

  /** Connector of every child but the last. */
  const Tee := "├── "
  /** Connector of the last child. */
  const Elbow := "└── "
  /** Prefix extension below a child that has later siblings. */
  const Pipe := "│   "
  /** Prefix extension below the last child. */
  const Blank := "    "

  /** One printed line. The root's line has an empty prefix and connector. */
  datatype Line = Line(prefix: string, connector: string, display: string, color: ColorClass)
  {
    /** The text written to the terminal, before colouring. */
    function Text(): string
    {
      prefix + connector + display
    }
  }

  /** The outcome of a traversal: `Ok(())`, or the `read_dir` error. */
  datatype Status = Ok | ReadDirFailed

  /** Lines printed by a traversal (they stay printed when it fails) and how it ended. */
  datatype Output = Output(lines: seq<Line>, status: Status)

  /** The root's name: the final path component if it is valid UTF-8, else ".". */
  function RootLabel(e: Entry): (r: string)
    ensures r == (if e.utf8 && e.name != "" then e.name else ".")
    ensures r != ""
  {
    if e.utf8 && e.name != "" then e.name else "."
  }

  /** A directory (following links) is shown with a trailing slash. */
  function DisplayName(e: Entry): (r: string)
    ensures r == e.name + "/" <==> IsDir(e)
    ensures !IsDir(e) ==> r == e.name
  {
    if IsDir(e) then e.name + "/" else e.name
  }

  function Connector(isLast: bool): (r: string)
    ensures r == Elbow <==> isLast
    ensures r == Tee <==> !isLast
  {
    if isLast then Elbow else Tee
  }

  function Extension(isLast: bool): (r: string)
    ensures r == Blank <==> isLast
    ensures r == Pipe <==> !isLast
    ensures |r| == 4
  {
    if isLast then Blank else Pipe
  }

  function RootLine(e: Entry): Line
  {
    Line("", "", RootLabel(e), Colorize(e))
  }

  function ChildLine(k: Entry, isLast: bool, prefix: string): Line
  {
    Line(prefix, Connector(isLast), DisplayName(k), Colorize(k))
  }

  /** The depth limit has been passed: nothing is printed at this depth. */
  predicate TooDeep(maxDepth: Option<nat>, depth: nat)
  {
    maxDepth.Some? && depth > maxDepth.value
  }

  /**
   * What `display_tree(path, showHidden, maxDepth, prefix, depth)` prints and
   * returns, for the entry `e` at `path`.
   */
  function Tree(e: Entry, showHidden: bool, maxDepth: Option<nat>, prefix: string, depth: nat): (r: Output)
    decreases e, 1
  {
    if TooDeep(maxDepth, depth) then Output([], Ok)
    else
      var head := if depth == 0 then [RootLine(e)] else [];
      if !IsDir(e) then Output(head, Ok)
      else match e.contents
        case ReadError => Output(head, ReadDirFailed)
        case Listing(items) =>
          ChildrenMembers(items, showHidden);
          var kids := Forest(e, Children(items, showHidden), 0, showHidden, maxDepth, prefix, depth);
          Output(head + kids.lines, kids.status)
  }

  /**
   * The lines printed for the children `kids[i..]` of `parent`, which is at
   * depth `depth`; the traversal stops at the first child whose subtree fails.
   */
  function Forest(parent: Entry, kids: seq<Entry>, i: nat, showHidden: bool, maxDepth: Option<nat>,
                  prefix: string, depth: nat): (r: Output)
    requires parent.contents.Listing?
    requires forall k :: k in kids ==> Item(k) in parent.contents.items
    decreases parent, 0, |kids| - i
  {
    if i >= |kids| then Output([], Ok)
    else
      var k := kids[i];
      var isLast := i == |kids| - 1;
      assert Item(k) in parent.contents.items;
      var sub := if IsDir(k) then Tree(k, showHidden, maxDepth, prefix + Extension(isLast), depth + 1)
                 else Output([], Ok);
      if sub.status == ReadDirFailed then Output([ChildLine(k, isLast, prefix)] + sub.lines, ReadDirFailed)
      else
        var rest := Forest(parent, kids, i + 1, showHidden, maxDepth, prefix, depth);
        Output([ChildLine(k, isLast, prefix)] + sub.lines + rest.lines, rest.status)
  }

  /** `Forest` with `lines` printed before it. */
  function After(lines: seq<Line>, o: Output): Output
  {
    Output(lines + o.lines, o.status)
  }

  /** `After` of a concatenation is `After` twice. */
  lemma AfterAppend(a: seq<Line>, b: seq<Line>, o: Output)
    ensures After(a + b, o) == After(a, After(b, o))
  {
    assert a + b + o.lines == a + (b + o.lines);
  }

  /** One step of `Forest`: the child's line and its subtree (if it is a
      directory) are printed; the traversal ends there when the subtree
      failed, and goes on with the later children otherwise. */
  lemma ForestStep(parent: Entry, kids: seq<Entry>, i: nat, showHidden: bool, maxDepth: Option<nat>,
                   prefix: string, depth: nat, sub: Output)
    requires parent.contents.Listing?
    requires forall k :: k in kids ==> Item(k) in parent.contents.items
    requires i < |kids|
    requires sub == if IsDir(kids[i]) then Tree(kids[i], showHidden, maxDepth, prefix + Extension(i == |kids| - 1), depth + 1)
                    else Output([], Ok)
    ensures var printed := [ChildLine(kids[i], i == |kids| - 1, prefix)] + sub.lines;
            Forest(parent, kids, i, showHidden, maxDepth, prefix, depth)
            == if sub.status == ReadDirFailed then Output(printed, ReadDirFailed)
               else After(printed, Forest(parent, kids, i + 1, showHidden, maxDepth, prefix, depth))
  {
  }

  /** The cases of `Tree` that do not list children. */
  lemma TreeWithoutListing(e: Entry, showHidden: bool, maxDepth: Option<nat>, prefix: string, depth: nat)
    requires TooDeep(maxDepth, depth) || !IsDir(e) || e.contents.ReadError?
    ensures TooDeep(maxDepth, depth) ==> Tree(e, showHidden, maxDepth, prefix, depth) == Output([], Ok)
    ensures !TooDeep(maxDepth, depth) ==>
      Tree(e, showHidden, maxDepth, prefix, depth)
      == Output(if depth == 0 then [RootLine(e)] else [], if IsDir(e) then ReadDirFailed else Ok)
  {
  }

  /** A directory within the depth limit whose listing succeeds prints its own
      line (at the root only), then its children. */
  lemma TreeOfListing(e: Entry, showHidden: bool, maxDepth: Option<nat>, prefix: string, depth: nat)
    requires !TooDeep(maxDepth, depth) && IsDir(e) && e.contents.Listing?
    requires forall k :: k in Children(e.contents.items, showHidden) ==> Item(k) in e.contents.items
    ensures Tree(e, showHidden, maxDepth, prefix, depth)
         == After(if depth == 0 then [RootLine(e)] else [],
                  Forest(e, Children(e.contents.items, showHidden), 0, showHidden, maxDepth, prefix, depth))
  {
  }

  /** Past the last child nothing more is printed. */
  lemma ForestDone(parent: Entry, kids: seq<Entry>, i: nat, showHidden: bool, maxDepth: Option<nat>,
                   prefix: string, depth: nat, before: seq<Line>)
    requires parent.contents.Listing?
    requires forall k :: k in kids ==> Item(k) in parent.contents.items
    requires i >= |kids|
    ensures After(before, Forest(parent, kids, i, showHidden, maxDepth, prefix, depth)) == Output(before, Ok)
  {
    assert before + [] == before;
  }

  /**
   * `display_tree`: prints the tree rooted at `e` line by line and returns the
   * printed lines and the outcome. The children's loop is `PrintEntries`.
   */
  method DisplayTree(e: Entry, showHidden: bool, maxDepth: Option<nat>, prefix: string, depth: nat)
    returns (lines: seq<Line>, status: Status)
    ensures Output(lines, status) == Tree(e, showHidden, maxDepth, prefix, depth)
    decreases e, 1
  {
    if maxDepth.Some? && depth > maxDepth.value {
      TreeWithoutListing(e, showHidden, maxDepth, prefix, depth);
      return [], Ok;
    }
    lines := [];
    if depth == 0 {
      lines := lines + [RootLine(e)];
    }
    if !IsDir(e) {
      TreeWithoutListing(e, showHidden, maxDepth, prefix, depth);
      return lines, Ok;
    }
    if e.contents.ReadError? {
      TreeWithoutListing(e, showHidden, maxDepth, prefix, depth);
      return lines, ReadDirFailed;
    }
    var entries := Visible(e.contents.items, showHidden);
    entries := SortByName(entries);
    assert entries == Children(e.contents.items, showHidden);
    ChildrenMembers(e.contents.items, showHidden);
    var childLines;
    childLines, status := PrintEntries(e, entries, showHidden, maxDepth, prefix, depth);
    TreeOfListing(e, showHidden, maxDepth, prefix, depth);
    lines := lines + childLines;
  }

  /**
   * The loop of `display_tree` over the sorted entries of `parent`: each
   * entry in turn, stopping at the first subtree that fails.
   */
  method PrintEntries(parent: Entry, entries: seq<Entry>, showHidden: bool, maxDepth: Option<nat>,
                      prefix: string, depth: nat)
    returns (lines: seq<Line>, status: Status)
    requires parent.contents.Listing?
    requires forall k :: k in entries ==> Item(k) in parent.contents.items
    ensures Output(lines, status) == Forest(parent, entries, 0, showHidden, maxDepth, prefix, depth)
    decreases parent, 0
  {
    lines := [];
    for index := 0 to |entries|
      invariant After(lines, Forest(parent, entries, index, showHidden, maxDepth, prefix, depth))
             == Forest(parent, entries, 0, showHidden, maxDepth, prefix, depth)
    {
      var entry := entries[index];
      var isLast := index == |entries| - 1;
      var connector, newPrefix := Connector(isLast), prefix + Extension(isLast);
      var line := Line(prefix, connector, DisplayName(entry), Colorize(entry));
      var sub := [];
      var subStatus := Ok;
      if IsDir(entry) {
        assert Item(entry) in parent.contents.items;
        sub, subStatus := DisplayTree(entry, showHidden, maxDepth, newPrefix, depth + 1);
      }
      ForestStep(parent, entries, index, showHidden, maxDepth, prefix, depth, Output(sub, subStatus));
      AfterAppend(lines, [line] + sub, Forest(parent, entries, index + 1, showHidden, maxDepth, prefix, depth));
      lines := lines + ([line] + sub);
      if subStatus == ReadDirFailed {
        return lines, ReadDirFailed;
      }
    }
    ForestDone(parent, entries, |entries|, showHidden, maxDepth, prefix, depth, lines);
    status := Ok;
  }
}
