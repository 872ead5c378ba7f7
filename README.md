# rutree2 in Dafny

rutree2 is a `tree`-like command-line program. Given a path, it prints:

- the path's name: its final component, or "." when that is missing or not valid UTF-8 (see `RootLabel` below);
- then, depth first, one line per entry below it, drawn with box-drawing connectors (`├── `, `└── `) under an indentation prefix made of `│   ` and four blanks.

Directories below the root get a trailing `/`; the root line is its bare label. Each name is coloured from the entry's metadata. A directory's children are always printed sorted by name (`src/main.rs:149`); no option changes that. The command line has three options (`src/main.rs:50-60`):

- `-a`/`--all` shows hidden entries (names starting with a dot), which are otherwise left out;
- `-d`/`--depth` sets a maximum depth that limits the descent;
- `-C`/`--color` chooses when to colour (`auto`, `always`, `never`).

The first two reach `display_tree` as its `show_hidden` and `max_depth` arguments; the third only switches colouring on or off in the terminal library.

This project models the two functions that do this work:

- `display_tree`, the recursive printer;
- `colorize_filename`, the colour classifier.

It proves what the printed output looks like.

The file system is a value. An `Entry` (`fs_model.dfy`) holds:

- a name;
- whether that name is valid UTF-8;
- the result of the link-aware metadata query (`symlink_metadata`);
- the result of the link-following query (`metadata`, which also decides `is_dir`);
- the result of `read_dir`: a listing, or an error. Each item of a listing is an entry or a per-item error.

The modules:

- `Names` (`names.dfy`): the order on names, lexicographic by character, proved a total order.
- `Scan` (`scan.dfy`): one directory level.
  - `filter_map(Result::ok)` and the hidden-file filter become `Visible`.
  - `sort_by_key(file_name)` becomes `SortByName`, a stable insertion sort proved to give a sorted permutation.
  - `Children` composes the two.
- `Classifier` (`classifier.dfy`): `colorize_filename` as the function `Colorize` from an entry to a colour class, with its precedence proved.
- `Render` (`render.dfy`): `display_tree`.
  - The function `Tree` (with `Forest` for the loop over the children) specifies the lines printed and the result returned.
  - The method `DisplayTree` and its loop `PrintEntries` follow the source step by step, printing into a sequence of lines. They are proved to produce exactly `Tree`'s lines and status.
- `RenderProps` (`render_props.dfy`): properties of `Tree`, proved by induction over the directory tree:
  - the shape of the lines;
  - the root line;
  - the depth limit;
  - hidden files;
  - when the error is returned;
  - which lines sit directly under a directory, and which unit (`│   ` or four blanks) each child's subtree is drawn under;
  - what has been printed when a listing fails;
  - a worked example.

## Model

| member | source | states |
|---|---|---|
| Render.Tree | src/main.rs:111-191 | no contract of its own: the function form of `display_tree` (lines printed and result returned), which `DisplayTree` is proved to compute; its properties are the `RenderProps` rows below |
| Render.Forest | src/main.rs:151-187 | no contract of its own: the function form of the loop over the sorted entries, stopping after the first failing subtree; its properties are stated by `ForestShape`, `ForestGuided`, `ForestDepth`, `ForestHidden`, `ForestFails`, `ForestSiblings` and `ForestStopsAt` |
| Render.DisplayTree | src/main.rs:111-191 | the lines printed, in order, and the `Ok`/error result are exactly those `Tree` specifies for the entry, options, prefix and depth |
| Render.PrintEntries | src/main.rs:151-187 | the loop over the sorted entries prints exactly `Forest`'s lines: entry by entry, each line followed by its subtree, stopping after the first subtree whose listing fails, with that failure as the result |
| Render.ForestStep | src/main.rs:152-187 | the equation of `Forest` unfolded once, used as a proof step: one loop pass prints the entry's line (current prefix, connector, display name, colour), then its subtree one level deeper under the extended prefix if it is a directory; the `?` ends the loop when that subtree fails, otherwise the later entries follow |
| Render.ForestDone | src/main.rs:187-190 | `Forest` unfolded at the end of the loop, used as a proof step: after the last entry nothing more is printed and the result is `Ok` |
| Render.TreeWithoutListing | src/main.rs:118-137 | the equations of `Tree` unfolded for the cases that list nothing, used as proof steps: past the maximum depth nothing is printed and the result is `Ok`; otherwise the root (depth 0 only) prints its name; a non-directory then stops with `Ok`; a directory whose `read_dir` fails stops with the error |
| Render.TreeOfListing | src/main.rs:128-188 | the equation of `Tree` unfolded for a listed directory, used as a proof step: a listed directory within the depth limit prints its own line (at depth 0 only), then the lines of its sorted, filtered children |
| Render.RootLabel | src/main.rs:126 | the root is labelled with its final name component when that is valid UTF-8, otherwise with "."; the label is never empty |
| Render.DisplayName | src/main.rs:162-170 | the display name is the name followed by "/" exactly when the entry is a directory (following links), and the bare name otherwise |
| Render.Connector | src/main.rs:154-160 | the last entry gets `└── `, and every other entry gets `├── ` |
| Render.Extension | src/main.rs:154-160 | below the last entry the prefix grows by four blanks, and below every other entry by `│   `; always four columns |
| Render.TooDeep | src/main.rs:119-121 | no contract of its own: a node is past the limit when a maximum depth is given and its depth exceeds it; stated by `TreeDepth`, `LinesWithinDepth` and `TreeWithoutListing` |
| Render.RootLine | src/main.rs:129-131 | no contract of its own: the root's line is its label with no prefix and no connector, coloured from the root entry; stated by `RootLineFirst` and `ExampleLineTexts` |
| Render.ChildLine | src/main.rs:162-175 | no contract of its own: an entry's line is the current prefix, its connector and its display name, coloured from the entry; stated by `ChildLinesAt`, `DirectoryChildrenAt`, `TreeGuided` and `ExampleLineTexts` |
| FsModel.IsDir | src/main.rs:166-170 | no contract of its own: `is_dir` follows links, so it holds when the link-following metadata reads and says directory, and a failed read counts as not a directory; it decides listing (lines 135, 178) and the trailing slash; stated by `DisplayName` and `TreeWithoutListing` |
| FsModel.IsLink | src/main.rs:210-213 | no contract of its own: the link-aware metadata reads and says symbolic link, and a failed read counts as not a link; stated by `ColorizeDecisionTable` and `SymlinkDominates` |
| Names.NameLe | src/main.rs:149 | no contract of its own: the order `sort_by_key(file_name)` sorts by, lexicographic by character with a proper prefix first; stated by `NameLeReflexive`, `NameLeAntisymmetric`, `NameLeTransitive` and `NameLeTotal` |
| Scan.Shown | src/main.rs:139-145 | no contract of its own: the hidden-file filter keeps an entry when hidden files are shown, its name is not valid UTF-8, or its name does not start with "."; stated by `VisibleMembers` and `ChildrenMembers` |
| Scan.Visible | src/main.rs:137-146 | no contract of its own: `filter_map(Result::ok)` followed by the hidden-file filter, in listing order; stated by `VisibleMembers` |
| Scan.Insert | src/main.rs:149 | no contract of its own: one step of the stable sort, placing an entry after every entry whose name does not sort strictly after it; stated by `InsertPermutation`, `InsertSorted` and `InsertAfterAll` |
| Scan.SortByName | src/main.rs:149 | no contract of its own: `sort_by_key(file_name)` as a stable insertion sort; stated by `SortByNameSortedPermutation`, `SortByNameOfSorted` and `SortByNameIdempotent` |
| Scan.Children | src/main.rs:137-149 | no contract of its own: the entries a listing shows, filtered then sorted; stated by `ChildrenMembers` and `ChildrenSortedPermutation` |
| Scan.VisibleMembers | src/main.rs:137-146 | an entry survives exactly when it was read without error and either hidden files are shown, its name is not valid UTF-8, or its name does not start with "."; nothing is added |
| Scan.InsertPermutation | src/main.rs:149 | inserting an entry adds exactly that entry to the multiset of entries |
| Scan.SortedCons | src/main.rs:149 | an entry whose name sorts at or before every name of a sorted sequence can be put in front of it |
| Scan.InsertSorted | src/main.rs:149 | inserting into a sequence sorted by name keeps it sorted |
| Scan.SortByNameSortedPermutation | src/main.rs:149 | sorting by name yields a sequence sorted by name that is a permutation of its input |
| Scan.InsertAfterAll | src/main.rs:149 | an entry whose name sorts at or after all others is placed last, after entries with equal names (stability) |
| Scan.SortByNameOfSorted | src/main.rs:149 | sorting a sequence already sorted by name leaves it unchanged, including the order of entries with equal names |
| Scan.SortByNameIdempotent | src/main.rs:149 | sorting twice is sorting once |
| Scan.ChildrenSortedPermutation | src/main.rs:137-149 | the children shown are sorted by name and are a permutation of the visible entries |
| Scan.ChildrenMembers | src/main.rs:137-149 | an entry is among the children shown exactly when the listing read it and the hidden-file filter keeps it |
| Names.NameLeReflexive | src/main.rs:149 | every name sorts at or before itself |
| Names.NameLeAntisymmetric | src/main.rs:149 | two names that each sort at or before the other are equal |
| Names.NameLeTransitive | src/main.rs:149 | the order on names is transitive |
| Names.NameLeTotal | src/main.rs:149 | any two names are ordered one way or the other |
| Names.NotLtIsGe | src/main.rs:149 | a name that does not sort strictly before another sorts at or after it |
| Classifier.Colorize | src/main.rs:208-249 | no contract of its own: `colorize_filename` as an ordered decision table from an entry to its colour class; stated by `ColorizeDecisionTable` and the precedence lemmas below |
| Classifier.ColorizeDecisionTable | src/main.rs:208-249 | each class holds exactly when its own rule applies and no earlier one does: a symbolic link is cyan; an entry whose link-following metadata cannot be read is uncoloured; a directory is blue; the other-write bit (octal 002) gives yellow; any execute bit (octal 111) gives green; otherwise uncoloured |
| Classifier.SymlinkDominates | src/main.rs:210-216 | a symbolic link is classed as a link whatever its target's metadata |
| Classifier.DirectoryIgnoresMode | src/main.rs:224-227 | a directory's class does not depend on its permission bits, and a directory that is not a link is classed as a directory |
| Classifier.WorldWritableBeatsExecutable | src/main.rs:234-244 | a world-writable file stays world-writable when execute bits are added: the write check comes first |
| Classifier.AnyExecuteBitSuffices | src/main.rs:234-243 | the user, group or other execute bit alone makes an otherwise plain file executable |
| Classifier.OnlyWriteAndExecuteBitsMatter | src/main.rs:229-248 | the class depends only on the mode bits in octal 113; clearing the others changes nothing |
| RenderProps.TreeShape | src/main.rs:151-185 | every line printed below the root extends the prefix its node was given by whole `│   `/blank units and carries a tee or an elbow; which unit sits under which child is stated by `ForestGuided` |
| RenderProps.ForestShape | src/main.rs:151-185 | the same for the lines of one directory's entries loop |
| RenderProps.UnitBelow | src/main.rs:154-160 | the unit read off a child's connector is four blanks exactly when the connector is the elbow, and `│   ` otherwise |
| RenderProps.Guided | src/main.rs:152-185 | no contract of its own: the alignment rule for the lines under a prefix, read in order: a line directly under the prefix carries a tee or an elbow and picks the unit for the following lines, and every other line lies under the prefix plus that unit; stated by `ForestGuided` and `TreeGuided` |
| RenderProps.GuidedCons | src/main.rs:175 | a child's line may go in front of guided lines that follow its own unit |
| RenderProps.GuidedDeeper | src/main.rs:179-185 | lines that all lie under the prefix plus the current unit may go in front of guided lines |
| RenderProps.GuidedStart | src/main.rs:152-175 | lines that begin with a child's line are guided whatever unit came before |
| RenderProps.GuidedStep | src/main.rs:152-187 | one loop pass keeps the rule: the child's line, its subtree under the unit its connector picks, then the later children unless the subtree failed |
| RenderProps.ForestGuided | src/main.rs:152-187 | the lines of a sibling group follow the alignment rule: every line of a child's subtree lies under four blanks when that child has the elbow (it is the last) and under `│   ` when it has a tee, and each such block follows its own child's line |
| RenderProps.TreeGuided | src/main.rs:129-187 | the same for a whole node: below the root all its lines are guided under its prefix; at the root, every line after the root's own |
| RenderProps.RootLineFirst | src/main.rs:126-132 | at depth 0 the first line is the root's label with no prefix or connector, and every later line has a connector |
| RenderProps.TreeDepth | src/main.rs:118-123 | with a maximum depth m, a node at depth d prints no line indented more than 4·(m−d) columns past its prefix |
| RenderProps.ForestDepth | src/main.rs:118-123 | the same for one directory's entries loop at a depth within the limit |
| RenderProps.LinesWithinDepth | src/main.rs:118-123 | from the root, with maximum depth m, no line is indented more than 4·m columns, so no row is deeper than depth m+1 (the upper bound only; that a directory at depth m does list its children follows from `DirectoryChildren` applied with depth m) |
| RenderProps.TreeHidden | src/main.rs:139-145 | without `show_hidden`, when every name is valid UTF-8, no child line displays a name starting with "." |
| RenderProps.ForestHidden | src/main.rs:139-145 | the same for one directory's entries loop |
| RenderProps.DisplayNameDot | src/main.rs:166-170 | adding the directory slash does not change whether a display name starts with "." |
| RenderProps.TreeFails | src/main.rs:137 | the error is returned exactly when some directory reached within the depth limit, through shown subdirectories, cannot be listed |
| RenderProps.ForestFails | src/main.rs:178-186 | an entries loop returns the error exactly when one of its remaining directory entries fails |
| RenderProps.SomeFailsStep | src/main.rs:178-186 | a remaining entry fails exactly when the current one fails or a later one does |
| RenderProps.SiblingsStep | src/main.rs:152-187 | directly under the prefix, one loop pass contributes just the entry's own line, because its subtree's lines are deeper; the later entries follow unless the subtree failed |
| RenderProps.ForestSiblings | src/main.rs:151-187 | directly under the prefix, a loop prints the entries' lines in order with their connectors: a prefix of that list when a subtree fails (which prefix is stated by `ForestStopsAt`), all of it otherwise |
| RenderProps.ChildLines | src/main.rs:152-175 | the lines a sibling group should print directly under its prefix, one per remaining child |
| RenderProps.ChildLinesAt | src/main.rs:152-175 | the j-th of those lines is the line of the j-th child, with `└── ` exactly on the last child and `├── ` on every other |
| RenderProps.DirectoryChildren | src/main.rs:137-187 | a listed directory prints, directly under its prefix, a prefix of its children's lines in sorted order, and all of them when the result is `Ok` |
| RenderProps.DirectoryChildrenAt | src/main.rs:137-187 | the same line by line: at most one line per shown child, the j-th being the j-th child's, with `└── ` exactly when it is the last child and `├── ` otherwise; when the result is `Ok` there is a line for every child |
| RenderProps.ChildLinesToTake | src/main.rs:152-175 | the lines of children i to j are the first j−i+1 lines of `ChildLines` from i |
| RenderProps.StopStepFails | src/main.rs:175-186 | when the current child is a directory whose subtree fails, the loop prints that child's line and its subtree's lines and returns the error; only the child's line is directly under the prefix |
| RenderProps.StopStepPasses | src/main.rs:175-187 | when the current child does not fail, the loop prints its line and subtree and continues with the later children, with the same result as they give |
| RenderProps.FirstFail | src/main.rs:178-186 | the index of the first remaining child that is a directory whose subtree fails, or the number of children when there is none; it is never before the starting index |
| RenderProps.FirstFailIsFirst | src/main.rs:178-186 | the child `FirstFail` finds does fail, and no child between the start and it does |
| RenderProps.FirstFailFound | src/main.rs:178-186 | some remaining child fails exactly when `FirstFail` finds one |
| RenderProps.ForestStopsAt | src/main.rs:152-187 | when the j-th child is the first that fails, the loop returns the error, the lines directly under the prefix are exactly the children's lines up to j's, and the output ends with j's line followed by all its subtree printed |
| RenderProps.ForestStopsHere | src/main.rs:175-186 | the case of `ForestStopsAt` where the current child is the first that fails |
| RenderProps.ForestStopsLater | src/main.rs:175-187 | the case of `ForestStopsAt` where the current child does not fail and a later one does |
| RenderProps.DirectoryFails | src/main.rs:137-187 | a listed directory within the depth limit returns the error exactly when `FirstFail` finds a failing child |
| RenderProps.DirectoryStopsAt | src/main.rs:137-187 | when its j-th shown child is the first that fails, a listed directory's lines directly under its prefix are its first j+1 children's lines, and its output ends with the j-th child's line and that child's subtree; nothing of the later children is printed |
| RenderProps.ExampleChildren | src/main.rs:137-149 | in the example tree, the root's shown children are `a` then `b`: the hidden file and the unreadable item are dropped, and `a` sorts before `b` |
| RenderProps.ExampleSubtree | src/main.rs:118-123 | with maximum depth 1, `a` (depth 1) prints `y/`, and `y` (depth 2) prints nothing |
| RenderProps.ExampleLastChild | src/main.rs:152-187 | the last child, the file `b`, prints only its own line, with an elbow |
| RenderProps.ExampleForest | src/main.rs:152-187 | the root's children print `a/`, then `a`'s subtree under `│   `, then `b` |
| RenderProps.ExampleDepthOne | src/main.rs:111-191 | the whole example tree with maximum depth 1 prints four lines and returns `Ok` |
| RenderProps.ExampleDepthOneText | src/main.rs:111-191 | those four lines read `r`, `├── a/`, `│   └── y/`, `└── b` |
| RenderProps.ExampleLineTexts | src/main.rs:129-175 | the text of each example line is its prefix, its connector and its display name |

## Left out

- Command-line parsing (`clap`), the `--color` choice and terminal detection are not part of this model. The model starts at `display_tree` with its arguments given.
- The ANSI escape sequences are left out. `Colorize` returns a colour class (cyan, blue and bold, yellow, green, none), not a styled string.
- Printing to standard output and the program's exit-on-error handling are left out. `DisplayTree` returns the printed lines, in the order they would be printed, together with the result.
- The file system calls (`is_dir`, `read_dir`, `metadata`, `symlink_metadata`) are replaced by the `Entry` value. Each entry's answers are fixed, so races between successive queries are not modelled.
- Symbolic link cycles are not modelled: an `Entry` is a finite tree. A link to a directory is listed through its target, as the link-following `is_dir` does.
- Names are strings of characters. The byte-level order on names that are not valid UTF-8 is left out, as is the lossy conversion (`to_string_lossy`) of such names for display. Such names are only marked as unreadable by the hidden-file filter and the root label.
- `colorize_filename` on platforms other than Unix (where it skips the permission checks) is left out. Only the Unix branch is modelled.
- Overflow of `current_depth + 1` at the machine word size is not modelled. Depths are unbounded naturals.
- Symlink `->` target rendering, other file classes (setuid, sticky, by extension) and an interactive mode are not modelled. `display_tree` and `colorize_filename` do not implement them.
- The maximum depth is checked on entering a node, before it is listed. A directory at depth `max_depth` therefore still lists its children, and rows appear down to depth `max_depth + 1`. The code behaves this way, and the model (`LinesWithinDepth`, `ExampleDepthOne`) follows the code rather than a reading in which depth `max_depth` is the last row printed.
