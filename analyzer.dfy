/** TaskStats/TaskmgrAnalyzer.cs: locating the Task Manager anchors in the
    automation tree, resolving the column headers, and extracting one record
    per featured process row. Launching Task Manager is outside the model:
    `StartAnalyzer` receives the main window as a tree value. */
module Analyzer {
  import opened Wrappers
  import opened Automation
  import opened Strings
  import opened ProcessRecords

  /** The exceptions the analyzer raises. */
  datatype AnalyzerError =
    | InvalidOperation(message: string)   // InvalidOperationException
    | KeyNotFound(key: string)            // KeyNotFoundException from the dictionary getter

  const RootNotFound: AnalyzerError := InvalidOperation("Root element not found")
  const ColumnHeaderNotFound: AnalyzerError := InvalidOperation("Column header not found")
  const MasterCategoryNotFound: AnalyzerError := InvalidOperation("Process master category not found")
  const CategoryNotFound: AnalyzerError := InvalidOperation("Process category not found")
  const NotStarted: AnalyzerError := InvalidOperation("Analyzer not started")

  /** The class name of a process row (and of a sub-process row). */
  const RowClass: string := "TmViewItemSelector"
  /** The record key that receives the row's own name. */
  const NameKey: string := "名称"
  const PidKey: string := "PID"

  // ---------------------------------------------------------------------
  // Anchors

  predicate IsRoot(el: Element) { GetCurrentName(el) == "TaskManagerMain" }
  predicate IsColumnHeader(el: Element) { GetCurrentClassName(el) == "TmColumnHeader" }
  predicate IsProcessMaster(el: Element) {
    GetCurrentName(el) == "进程" && GetCurrentClassName(el) == "TmScrollViewer"
  }
  predicate IsForeground(el: Element) {
    GetCurrentName(el) == "应用" && GetCurrentClassName(el) == "TmGroupHeader"
  }
  predicate IsBackground(el: Element) {
    GetCurrentName(el) == "后台进程" && GetCurrentClassName(el) == "TmGroupHeader"
  }

  /** The five elements start-up needs. */
  datatype Anchors = Anchors(root: Element, columnHeader: Element, master: Element,
                             foreground: Element, background: Element)

  /** Every anchor is the first direct child of its parent that matches it:
      the root under the main window, the column header and the master
      region under the root, both categories under the master region. */
  ghost predicate Anchored(mainWindow: Element, a: Anchors) {
    && IsFirstMatch(mainWindow, IsRoot, a.root)
    && IsFirstMatch(a.root, IsColumnHeader, a.columnHeader)
    && IsFirstMatch(a.root, IsProcessMaster, a.master)
    && IsFirstMatch(a.master, IsForeground, a.foreground)
    && IsFirstMatch(a.master, IsBackground, a.background)
  }

  /** The anchor search of `StartAnalyzer`, with its error precedence: root,
      then column header, then master region, then the two categories. */
  function LocateAnchors(mainWindow: Element): (r: Result<Anchors, AnalyzerError>)
    ensures r.Success? ==> Anchored(mainWindow, r.value)
    ensures r.Failure? ==> r.error in {RootNotFound, ColumnHeaderNotFound, MasterCategoryNotFound, CategoryNotFound}
  {
    match FindOneBy(mainWindow, IsRoot)
    case None => Failure(RootNotFound)
    case Some(root) =>
      match FindOneBy(root, IsColumnHeader)
      case None => Failure(ColumnHeaderNotFound)
      case Some(ch) =>
        match FindOneBy(root, IsProcessMaster)
        case None => Failure(MasterCategoryNotFound)
        case Some(master) =>
          var fg := FindOneBy(master, IsForeground);
          var bg := FindOneBy(master, IsBackground);
          if fg.None? || bg.None? then Failure(CategoryNotFound)
          else Success(Anchors(root, ch, master, fg.value, bg.value))
  }

  /** Start-up succeeds exactly when all anchors exist, and then finds them. */
  lemma LocateAnchorsComplete(mainWindow: Element, a: Anchors)
    requires Anchored(mainWindow, a)
    ensures LocateAnchors(mainWindow) == Success(a)
  {
    FindOneByFindsFirstMatch(mainWindow, IsRoot, a.root);
    FindOneByFindsFirstMatch(a.root, IsColumnHeader, a.columnHeader);
    FindOneByFindsFirstMatch(a.root, IsProcessMaster, a.master);
    FindOneByFindsFirstMatch(a.master, IsForeground, a.foreground);
    FindOneByFindsFirstMatch(a.master, IsBackground, a.background);
  }

  /** Each failure names the first anchor that is missing. */
  lemma LocateAnchorsErrors(mainWindow: Element)
    ensures LocateAnchors(mainWindow) == Failure(RootNotFound) <==> NoneMatch(mainWindow, IsRoot)
    ensures LocateAnchors(mainWindow) == Failure(ColumnHeaderNotFound) <==>
      exists root :: IsFirstMatch(mainWindow, IsRoot, root) && NoneMatch(root, IsColumnHeader)
    ensures LocateAnchors(mainWindow) == Failure(MasterCategoryNotFound) <==>
      exists root :: IsFirstMatch(mainWindow, IsRoot, root) && !NoneMatch(root, IsColumnHeader)
                     && NoneMatch(root, IsProcessMaster)
    ensures LocateAnchors(mainWindow) == Failure(CategoryNotFound) <==>
      exists root, master :: IsFirstMatch(mainWindow, IsRoot, root) && !NoneMatch(root, IsColumnHeader)
                     && IsFirstMatch(root, IsProcessMaster, master)
                     && (NoneMatch(master, IsForeground) || NoneMatch(master, IsBackground))
  {
    var r := FindOneBy(mainWindow, IsRoot);
    if r.Some? {
      forall root | IsFirstMatch(mainWindow, IsRoot, root) ensures root == r.value {
        FindOneByFindsFirstMatch(mainWindow, IsRoot, root);
      }
      var m := FindOneBy(r.value, IsProcessMaster);
      if m.Some? {
        forall master | IsFirstMatch(r.value, IsProcessMaster, master) ensures master == m.value {
          FindOneByFindsFirstMatch(r.value, IsProcessMaster, master);
        }
      }
    }
  }

  /** The root search of `StartAnalyzer`: a loop over the main window's
      children that stops at the first one named "TaskManagerMain". */
  method FindRootElement(mainWindow: Element) returns (root: Option<Element>)
    ensures root.None? <==> NoneMatch(mainWindow, IsRoot)
    ensures root.Some? ==> IsFirstMatch(mainWindow, IsRoot, root.value)
  {
    var elements := mainWindow.children;
    root := None;
    var i := 0;
    while i < |elements|
      invariant 0 <= i <= |elements|
      invariant forall j :: 0 <= j < i ==> !IsRoot(elements[j])
    {
      if GetCurrentName(elements[i]) == "TaskManagerMain" {
        root := Some(elements[i]);
        assert FirstMatchAt(mainWindow, IsRoot, elements[i], i);
        break;
      }
      i := i + 1;
    }
  }

  // ---------------------------------------------------------------------
  // Headers

  /** One header: its name up to the first '.', then up to the first space. */
  function TruncateHeader(name: string): (h: string)
    ensures h <= name
    ensures '.' !in h && ' ' !in h
    ensures h == name || name[|h|] == '.' || name[|h|] == ' '
  {
    BeforeFirst(BeforeFirst(name, '.'), ' ')
  }

  /** Truncating an already truncated header changes nothing. */
  lemma TruncateHeaderIdempotent(name: string)
    ensures TruncateHeader(TruncateHeader(name)) == TruncateHeader(name)
  {
    var h := TruncateHeader(name);
    BeforeFirstNoDelimiter(h, '.');
    BeforeFirstNoDelimiter(h, ' ');
  }

  /** A header decorated with a sort suffix and a number keeps its first word. */
  lemma TruncateHeaderExample()
    ensures TruncateHeader("CPU.sort 12") == "CPU"
  {
    assert "CPU.sort 12"[3] == '.';
  }

  /** The truncated names of the column header's children. */
  function HeaderNames(cells: seq<Element>): (hs: seq<string>)
    ensures |hs| == |cells|
    ensures forall i :: 0 <= i < |cells| ==> hs[i] == TruncateHeader(GetCurrentName(cells[i]))
  {
    if cells == [] then [] else [TruncateHeader(GetCurrentName(cells[0]))] + HeaderNames(cells[1..])
  }

  /** `_headers` after `_UpdateHeaders`: recomputed from the column header's
      children, or left as it was when there is no column header. */
  function UpdatedHeaders(headers: Option<seq<string>>, columnHeader: Option<Element>): (r: Option<seq<string>>)
    ensures columnHeader.None? ==> r == headers
    ensures columnHeader.Some? ==> r.Some? && |r.value| == |columnHeader.value.children|
    ensures columnHeader.Some? ==> forall i :: 0 <= i < |r.value| ==>
      r.value[i] == TruncateHeader(GetCurrentName(columnHeader.value.children[i]))
  {
    match columnHeader
    case None => headers
    case Some(ch) => Some(HeaderNames(ch.children))
  }

  // ---------------------------------------------------------------------
  // Row selection

  predicate IsProcessRow(el: Element) { GetCurrentClassName(el) == RowClass }

  /** `_featuredProcessPatterns.Any(pattern => name.Contains(pattern))`. */
  predicate MatchesAny(name: string, patterns: seq<string>) {
    exists i :: 0 <= i < |patterns| && Contains(name, patterns[i])
  }

  /** A category child that the extraction keeps. */
  predicate IsTarget(patterns: seq<string>, el: Element) {
    IsProcessRow(el) && MatchesAny(GetCurrentName(el), patterns)
  }

  /** A row is kept iff it is a process row and one of the patterns occurs in
      its name (case-sensitive); with no patterns nothing is kept. */
  lemma IsTargetIff(patterns: seq<string>, el: Element)
    ensures IsTarget(patterns, el) <==>
      GetCurrentClassName(el) == "TmViewItemSelector" &&
      exists i, k :: 0 <= i < |patterns| && OccursAt(GetCurrentName(el), patterns[i], k)
    ensures patterns == [] ==> !IsTarget(patterns, el)
  {
    if IsTarget(patterns, el) {
      var i :| 0 <= i < |patterns| && Contains(GetCurrentName(el), patterns[i]);
      var k :| OccursAt(GetCurrentName(el), patterns[i], k);
    }
  }

  /** The target test as a function value, for the list combinators below. */
  function TargetTest(patterns: seq<string>): Element -> bool {
    el => IsTarget(patterns, el)
  }

  /** The process rows among `cells`, in order (the sub-process query). */
  function ProcessRows(cells: seq<Element>): seq<Element> {
    if cells == [] then []
    else ProcessRows(cells[..|cells| - 1])
         + (if IsProcessRow(cells[|cells| - 1]) then [cells[|cells| - 1]] else [])
  }

  /** `ProcessRows` keeps exactly the process rows. */
  lemma {:induction false} ProcessRowsMembers(cells: seq<Element>, x: Element)
    ensures x in ProcessRows(cells) <==> x in cells && IsProcessRow(x)
  {
    if cells != [] {
      var n := |cells| - 1;
      ProcessRowsMembers(cells[..n], x);
      assert cells == cells[..n] + [cells[n]];
    }
  }

  /** The sub-process query keeps child order and repeats: it distributes
      over concatenation and keeps a single child iff it is a process row. */
  lemma {:induction false} ProcessRowsConcat(a: seq<Element>, b: seq<Element>)
    ensures ProcessRows(a + b) == ProcessRows(a) + ProcessRows(b)
  {
    if b == [] {
      assert a + b == a;
    } else {
      var n := |b| - 1;
      DropLast(a, b);
      ProcessRowsConcat(a, b[..n]);
      Associate(ProcessRows(a), ProcessRows(b[..n]), if IsProcessRow(b[n]) then [b[n]] else []);
    }
  }

  lemma ProcessRowsSingle(c: Element)
    ensures ProcessRows([]) == []
    ensures ProcessRows([c]) == if IsProcessRow(c) then [c] else []
  {
    assert [c][..0] == [];
  }

  /** What one category child adds to the target list when `keep` is the
      row test: nothing, or the row followed by its direct sub-process rows. */
  function Contribution(keep: Element -> bool, el: Element): seq<Element> {
    if keep(el) then [el] + ProcessRows(el.children) else []
  }

  /** The target list built from one category's children. */
  function SelectedBy(keep: Element -> bool, candidates: seq<Element>): seq<Element> {
    if candidates == [] then []
    else SelectedBy(keep, candidates[..|candidates| - 1]) + Contribution(keep, candidates[|candidates| - 1])
  }

  /** The target list of one category for the configured patterns. */
  function Selected(patterns: seq<string>, candidates: seq<Element>): seq<Element> {
    SelectedBy(TargetTest(patterns), candidates)
  }

  /** Selection distributes over concatenation of candidate lists. */
  lemma {:induction false} SelectedConcat(keep: Element -> bool, a: seq<Element>, b: seq<Element>)
    ensures SelectedBy(keep, a + b) == SelectedBy(keep, a) + SelectedBy(keep, b)
  {
    if b == [] {
      assert a + b == a;
    } else {
      var n := |b| - 1;
      DropLast(a, b);
      SelectedConcat(keep, a, b[..n]);
      Associate(SelectedBy(keep, a), SelectedBy(keep, b[..n]), Contribution(keep, b[n]));
    }
  }

  /** Every kept row is immediately followed by its direct sub-process rows,
      between what the earlier and the later candidates contribute. */
  lemma SelectedAround(keep: Element -> bool, pre: seq<Element>, c: Element, post: seq<Element>)
    requires keep(c)
    ensures SelectedBy(keep, pre + [c] + post) ==
      SelectedBy(keep, pre) + [c] + ProcessRows(c.children) + SelectedBy(keep, post)
  {
    SelectedConcat(keep, pre, [c]);
    SelectedConcat(keep, pre + [c], post);
    SelectedSingle(keep, c);
    Reassociate(SelectedBy(keep, pre), [c], ProcessRows(c.children), SelectedBy(keep, post));
  }

  lemma Reassociate<T>(a: seq<T>, b: seq<T>, c: seq<T>, d: seq<T>)
    ensures a + (b + c) + d == a + b + c + d
  {
  }

  lemma Associate<T>(a: seq<T>, b: seq<T>, c: seq<T>)
    ensures a + b + c == a + (b + c)
  {
  }

  /** Dropping the last element of a concatenation with a non-empty tail. */
  lemma DropLast<T>(a: seq<T>, b: seq<T>)
    requires b != []
    ensures (a + b)[..|a + b| - 1] == a + b[..|b| - 1]
    ensures (a + b)[|a + b| - 1] == b[|b| - 1]
  {
  }

  lemma SelectedSingle(keep: Element -> bool, c: Element)
    ensures SelectedBy(keep, [c]) == Contribution(keep, c)
  {
    assert [c][..0] == [];
  }

  /** One more candidate adds its contribution at the end. */
  lemma SelectedStep(keep: Element -> bool, candidates: seq<Element>, i: nat)
    requires i < |candidates|
    ensures SelectedBy(keep, candidates[..i + 1]) == SelectedBy(keep, candidates[..i]) + Contribution(keep, candidates[i])
  {
    assert candidates[..i + 1][..i] == candidates[..i];
  }

  /** `x` is the kept candidate `c` itself or a direct process-row child of it. */
  predicate Covers(keep: Element -> bool, c: Element, x: Element) {
    keep(c) && (x == c || (x in c.children && IsProcessRow(x)))
  }

  /** What one candidate contributes is the elements it covers. */
  lemma ContributionMembers(keep: Element -> bool, c: Element, x: Element)
    ensures x in Contribution(keep, c) <==> Covers(keep, c, x)
  {
    ProcessRowsMembers(c.children, x);
  }

  /** Some candidate covers `x`. */
  ghost predicate CoveredBy(keep: Element -> bool, candidates: seq<Element>, x: Element) {
    exists i :: 0 <= i < |candidates| && Covers(keep, candidates[i], x)
  }

  /** A candidate covering `x` is among the earlier ones or is the last. */
  lemma CoveredSplit(keep: Element -> bool, candidates: seq<Element>, x: Element)
    requires candidates != []
    ensures CoveredBy(keep, candidates, x) <==>
      CoveredBy(keep, candidates[..|candidates| - 1], x) || Covers(keep, candidates[|candidates| - 1], x)
  {
    var n := |candidates| - 1;
    var init := candidates[..n];
    if CoveredBy(keep, candidates, x) {
      var i :| 0 <= i < |candidates| && Covers(keep, candidates[i], x);
      if i < n {
        assert init[i] == candidates[i];
      }
    }
    if CoveredBy(keep, init, x) {
      var i :| 0 <= i < n && Covers(keep, init[i], x);
      assert candidates[i] == init[i];
    }
  }

  /** An element is selected exactly when it is a kept candidate or a direct
      process-row child of one: sub-rows are not filtered by `keep`, and
      grandchildren are not flattened. */
  lemma {:induction false} SelectedMembers(keep: Element -> bool, candidates: seq<Element>, x: Element)
    ensures x in SelectedBy(keep, candidates) <==> CoveredBy(keep, candidates, x)
  {
    if candidates != [] {
      var n := |candidates| - 1;
      SelectedMembers(keep, candidates[..n], x);
      ContributionMembers(keep, candidates[n], x);
      CoveredSplit(keep, candidates, x);
    }
  }

  /** With no patterns, no category yields any target. */
  lemma {:induction false} SelectedNoPatterns(candidates: seq<Element>)
    ensures Selected([], candidates) == []
  {
    if candidates != [] {
      var n := |candidates| - 1;
      SelectedNoPatterns(candidates[..n]);
      IsTargetIff([], candidates[n]);
    }
  }

  /** The targets of one category, as a function value. */
  function CategoryTargets(patterns: seq<string>): Element -> seq<Element> {
    (category: Element) => Selected(patterns, category.children)
  }

  /** `f` applied to every element, the results concatenated in order. */
  function ConcatMap(f: Element -> seq<Element>, xs: seq<Element>): seq<Element> {
    if xs == [] then [] else ConcatMap(f, xs[..|xs| - 1]) + f(xs[|xs| - 1])
  }

  lemma {:induction false} ConcatMapConcat(f: Element -> seq<Element>, a: seq<Element>, b: seq<Element>)
    ensures ConcatMap(f, a + b) == ConcatMap(f, a) + ConcatMap(f, b)
  {
    if b == [] {
      assert a + b == a;
    } else {
      var n := |b| - 1;
      DropLast(a, b);
      ConcatMapConcat(f, a, b[..n]);
      Associate(ConcatMap(f, a), ConcatMap(f, b[..n]), f(b[n]));
    }
  }

  /** The targets of several categories, category after category. */
  function Targets(patterns: seq<string>, categories: seq<Element>): seq<Element> {
    ConcatMap(CategoryTargets(patterns), categories)
  }

  /** One more category adds its targets at the end. */
  lemma ConcatMapStep(f: Element -> seq<Element>, xs: seq<Element>, c: nat)
    requires c < |xs|
    ensures ConcatMap(f, xs[..c + 1]) == ConcatMap(f, xs[..c]) + f(xs[c])
  {
    assert xs[..c + 1][..c] == xs[..c];
  }

  /** Foreground targets all come before background targets. */
  lemma TargetsOfTwo(patterns: seq<string>, foreground: Element, background: Element)
    ensures Targets(patterns, [foreground, background]) ==
      Selected(patterns, foreground.children) + Selected(patterns, background.children)
  {
    var f := CategoryTargets(patterns);
    assert [foreground, background][..1] == [foreground];
    assert [foreground][..0] == [];
    assert ConcatMap(f, [foreground]) == f(foreground);
  }

  /** The loop over one category's children that builds `targetProcesses`. */
  method SelectTargetProcesses(patterns: seq<string>, category: Element) returns (targets: seq<Element>)
    ensures targets == Selected(patterns, category.children)
  {
    var processes := category.children;
    targets := [];
    var i := 0;
    while i < |processes|
      invariant 0 <= i <= |processes|
      invariant targets == Selected(patterns, processes[..i])
    {
      var processCandidate := processes[i];
      SelectedStep(TargetTest(patterns), processes, i);
      if GetCurrentClassName(processCandidate) != RowClass {
        i := i + 1;
        continue;
      }
      if !MatchesAny(GetCurrentName(processCandidate), patterns) {
        i := i + 1;
        continue;
      }
      var subCandidates := ProcessRows(processCandidate.children);
      Associate(targets, [processCandidate], subCandidates);
      targets := targets + [processCandidate];
      targets := targets + subCandidates;
      i := i + 1;
    }
    assert processes[..i] == processes;
  }

  // ---------------------------------------------------------------------
  // Records

  /** The first `n` header/cell pairs written into a fresh dictionary, in
      order: `processInfo[headers[i]] = name of cells[i]`. */
  function ZipFields(headers: seq<string>, cells: seq<Element>, n: nat): Record
    requires n <= |headers| && n <= |cells|
  {
    if n == 0 then []
    else Set(ZipFields(headers, cells, n - 1), headers[n - 1], GetCurrentName(cells[n - 1]))
  }

  /** How many pairs `Zip` forms: the shorter of the two lengths. */
  function ZipLength(headers: seq<string>, cells: seq<Element>): (n: nat)
    ensures n <= |headers| && n <= |cells|
    ensures n == |headers| || n == |cells|
  {
    if |headers| <= |cells| then |headers| else |cells|
  }

  /** A header binds the name of the cell at its position unless a later
      position within the zip has the same header. */
  lemma {:induction false} ZipBindsLast(headers: seq<string>, cells: seq<Element>, n: nat, i: nat)
    requires n <= |headers| && n <= |cells|
    requires i < n
    requires forall j :: i < j < n ==> headers[j] != headers[i]
    ensures Get(ZipFields(headers, cells, n), headers[i]) == Some(GetCurrentName(cells[i]))
  {
    if i == n - 1 {
      GetSetSame(ZipFields(headers, cells, n - 1), headers[n - 1], GetCurrentName(cells[n - 1]));
    } else {
      ZipBindsLast(headers, cells, n - 1, i);
      GetSetOther(ZipFields(headers, cells, n - 1), headers[n - 1], GetCurrentName(cells[n - 1]), headers[i]);
    }
  }

  /** A key that is none of the first `n` headers is absent. */
  lemma {:induction false} ZipAbsent(headers: seq<string>, cells: seq<Element>, n: nat, k: string)
    requires n <= |headers| && n <= |cells|
    requires forall j :: 0 <= j < n ==> headers[j] != k
    ensures Get(ZipFields(headers, cells, n), k) == None
  {
    if n > 0 {
      ZipAbsent(headers, cells, n - 1, k);
      GetSetOther(ZipFields(headers, cells, n - 1), headers[n - 1], GetCurrentName(cells[n - 1]), k);
    }
  }

  /** `xs` without repetitions, each element where it first occurs. */
  function FirstOccurrences(xs: seq<string>): (r: seq<string>)
    ensures forall x :: x in r <==> x in xs
  {
    if xs == [] then []
    else
      var init := xs[..|xs| - 1];
      var d := FirstOccurrences(init);
      if xs[|xs| - 1] in init then d else d + [xs[|xs| - 1]]
  }

  /** No element occurs twice. */
  ghost predicate NoRepeats(r: seq<string>) {
    forall i, j :: 0 <= i < j < |r| ==> r[i] != r[j]
  }

  /** Every occurrence of `b` in `xs` comes after some occurrence of `a`. */
  ghost predicate SeenBefore(xs: seq<string>, a: string, b: string) {
    forall k :: 0 <= k < |xs| && xs[k] == b ==> a in xs[..k]
  }

  /** `FirstOccurrences` has no repeats and lists the elements in the order
      of their first occurrences; with its set equality this pins it down. */
  lemma {:induction false} FirstOccurrencesOrder(xs: seq<string>)
    ensures NoRepeats(FirstOccurrences(xs))
    ensures forall i, j :: 0 <= i < j < |FirstOccurrences(xs)| ==>
      SeenBefore(xs, FirstOccurrences(xs)[i], FirstOccurrences(xs)[j])
  {
    if xs != [] {
      var n := |xs| - 1;
      var init, z := xs[..n], xs[n];
      var d := FirstOccurrences(init);
      var r := FirstOccurrences(xs);
      FirstOccurrencesOrder(init);
      assert forall k :: 0 <= k < n ==> init[..k] == xs[..k];
      forall i, j | 0 <= i < j < |r| ensures SeenBefore(xs, r[i], r[j]) {
        forall k | 0 <= k < |xs| && xs[k] == r[j] ensures r[i] in xs[..k] {
          if k < n {
            assert init[k] == xs[k];
            if j < |d| {
              assert r[i] in init[..k];
            }
          } else if j < |d| {
            assert z == d[j] && z in init;
            var k' :| 0 <= k' < n && init[k'] == z;
            assert r[i] in init[..k'];
            assert xs[..k'] <= xs[..k];
          } else {
            assert r[i] == d[i] && d[i] in init;
            assert xs[..k] == init;
          }
        }
      }
    }
  }

  /** The zipped record's keys are the zipped headers in order of first
      occurrence: a repeated header keeps its first position. */
  lemma {:induction false} ZipKeys(headers: seq<string>, cells: seq<Element>, n: nat)
    requires n <= |headers| && n <= |cells|
    ensures Keys(ZipFields(headers, cells, n)) == FirstOccurrences(headers[..n])
  {
    if n > 0 {
      ZipKeys(headers, cells, n - 1);
      SetKeys(ZipFields(headers, cells, n - 1), headers[n - 1], GetCurrentName(cells[n - 1]));
      assert headers[..n][..n - 1] == headers[..n - 1];
    }
  }

  /** The zipped record has no duplicate key. */
  lemma {:induction false} ZipUnique(headers: seq<string>, cells: seq<Element>, n: nat)
    requires n <= |headers| && n <= |cells|
    ensures UniqueKeys(ZipFields(headers, cells, n))
  {
    if n > 0 {
      ZipUnique(headers, cells, n - 1);
      SetUnique(ZipFields(headers, cells, n - 1), headers[n - 1], GetCurrentName(cells[n - 1]));
    }
  }

  /** Headers [A, B, C] against cells [x, y] give A = x, B = y and no C. */
  lemma ZipExample(a: string, b: string, c: string, x: Element, y: Element)
    requires a != b && a != c && b != c
    ensures var r := ZipFields([a, b, c], [x, y], ZipLength([a, b, c], [x, y]));
      Get(r, a) == Some(GetCurrentName(x)) && Get(r, b) == Some(GetCurrentName(y)) && Get(r, c) == None
  {
    ZipBindsLast([a, b, c], [x, y], 2, 0);
    ZipBindsLast([a, b, c], [x, y], 2, 1);
    ZipAbsent([a, b, c], [x, y], 2, c);
  }

  /** The post-processing: `名称` becomes the row's own name, then `PID` is
      read (raising when absent) and an empty `PID` becomes "0". */
  function PostProcess(info: Record, rowName: string): Result<Record, AnalyzerError> {
    var named := Set(info, NameKey, rowName);
    match Get(named, PidKey)
    case None => Failure(KeyNotFound(PidKey))
    case Some(pid) => Success(if pid == "" then Set(named, PidKey, "0") else named)
  }

  /** What post-processing does and does not touch. */
  lemma PostProcessSpec(info: Record, rowName: string)
    ensures PostProcess(info, rowName).Success? <==> Get(info, PidKey).Some?
    ensures PostProcess(info, rowName).Failure? ==> PostProcess(info, rowName).error == KeyNotFound("PID")
    ensures PostProcess(info, rowName).Success? ==>
      var out, pid := PostProcess(info, rowName).value, Get(info, PidKey).value;
      && Get(out, NameKey) == Some(rowName)
      && Get(out, PidKey) == Some(if pid == "" then "0" else pid)
      && (forall k :: k != NameKey && k != PidKey ==> Get(out, k) == Get(info, k))
  {
    var named := Set(info, NameKey, rowName);
    GetSetOther(info, NameKey, rowName, PidKey);
    GetSetSame(info, NameKey, rowName);
    forall k | k != NameKey ensures Get(named, k) == Get(info, k) {
      GetSetOther(info, NameKey, rowName, k);
    }
    if Get(named, PidKey) == Some("") {
      GetSetSame(named, PidKey, "0");
      GetSetOther(named, PidKey, "0", NameKey);
      forall k | k != PidKey ensures Get(Set(named, PidKey, "0"), k) == Get(named, k) {
        GetSetOther(named, PidKey, "0", k);
      }
    }
  }

  /** Post-processing keeps the key order: `名称` stays where it was, or is
      appended when the headers lacked it; `PID` is never moved. */
  lemma PostProcessKeys(info: Record, rowName: string)
    requires PostProcess(info, rowName).Success?
    ensures Keys(PostProcess(info, rowName).value) ==
      if NameKey in Keys(info) then Keys(info) else Keys(info) + [NameKey]
  {
    var named := Set(info, NameKey, rowName);
    SetKeys(info, NameKey, rowName);
    SetKeys(named, PidKey, "0");
    GetAbsent(named, PidKey);
  }

  /** The record of one target row. */
  function ProcessInfo(headers: seq<string>, row: Element): Result<Record, AnalyzerError> {
    PostProcess(ZipFields(headers, row.children, ZipLength(headers, row.children)), GetCurrentName(row))
  }

  /** Every record the extraction produces is a dictionary: no key twice. */
  lemma ProcessInfoUnique(headers: seq<string>, row: Element)
    requires ProcessInfo(headers, row).Success?
    ensures UniqueKeys(ProcessInfo(headers, row).value)
  {
    var z := ZipFields(headers, row.children, ZipLength(headers, row.children));
    ZipUnique(headers, row.children, ZipLength(headers, row.children));
    SetUnique(z, NameKey, GetCurrentName(row));
    SetUnique(Set(z, NameKey, GetCurrentName(row)), PidKey, "0");
  }

  /** The record builder as a function value. */
  function InfoOf(headers: seq<string>): Element -> Result<Record, AnalyzerError> {
    row => ProcessInfo(headers, row)
  }

  /** Builds one record per row, in order; the first failing row aborts. */
  function BuildAll(build: Element -> Result<Record, AnalyzerError>, rows: seq<Element>)
    : Result<seq<Record>, AnalyzerError>
  {
    if rows == [] then Success([])
    else
      match BuildAll(build, rows[..|rows| - 1])
      case Failure(e) => Failure(e)
      case Success(done) =>
        match build(rows[|rows| - 1])
        case Failure(e) => Failure(e)
        case Success(info) => Success(done + [info])
  }

  /** Once a prefix of the rows fails, the whole list fails the same way. */
  lemma {:induction false} BuildAllFailed(build: Element -> Result<Record, AnalyzerError>,
                                          rows: seq<Element>, more: seq<Element>)
    requires BuildAll(build, rows).Failure?
    ensures BuildAll(build, rows + more) == BuildAll(build, rows)
  {
    if more == [] {
      assert rows + more == rows;
    } else {
      var n := |more| - 1;
      BuildAllFailed(build, rows, more[..n]);
      assert (rows + more)[..|rows + more| - 1] == rows + more[..n];
    }
  }

  /** One more row: its record is appended, or its failure ends the list. */
  lemma BuildAllStep(build: Element -> Result<Record, AnalyzerError>, rows: seq<Element>, x: Element)
    requires BuildAll(build, rows).Success?
    ensures BuildAll(build, rows + [x]) ==
      match build(x)
      case Failure(e) => Failure(e)
      case Success(info) => Success(BuildAll(build, rows).value + [info])
  {
    assert (rows + [x])[..|rows|] == rows;
  }

  /** A failure among the rows of the first `c + 1` categories is the
      failure of the rows of all of them. */
  lemma BuildAllFailedEarly(build: Element -> Result<Record, AnalyzerError>, f: Element -> seq<Element>,
                            xs: seq<Element>, c: nat)
    requires c < |xs|
    requires BuildAll(build, ConcatMap(f, xs[..c + 1])).Failure?
    ensures BuildAll(build, ConcatMap(f, xs)) == BuildAll(build, ConcatMap(f, xs[..c + 1]))
  {
    ConcatMapConcat(f, xs[..c + 1], xs[c + 1..]);
    assert xs[..c + 1] + xs[c + 1..] == xs;
    BuildAllFailed(build, ConcatMap(f, xs[..c + 1]), ConcatMap(f, xs[c + 1..]));
  }

  /** Building succeeds exactly when every row's record does, record i is
      then the record of row i, and a failure is the failure of some row. */
  lemma {:induction false} BuildAllPointwise(build: Element -> Result<Record, AnalyzerError>, rows: seq<Element>)
    ensures BuildAll(build, rows).Success? <==> forall i :: 0 <= i < |rows| ==> build(rows[i]).Success?
    ensures BuildAll(build, rows).Success? ==>
      |BuildAll(build, rows).value| == |rows| &&
      forall i :: 0 <= i < |rows| ==> BuildAll(build, rows).value[i] == build(rows[i]).value
    ensures BuildAll(build, rows).Failure? ==>
      exists i :: 0 <= i < |rows| && build(rows[i]) == Failure(BuildAll(build, rows).error)
  {
    if rows != [] {
      var n := |rows| - 1;
      BuildAllPointwise(build, rows[..n]);
      assert forall i :: 0 <= i < n ==> rows[..n][i] == rows[i];
      if BuildAll(build, rows[..n]).Failure? {
        var i :| 0 <= i < n && build(rows[..n][i]) == Failure(BuildAll(build, rows[..n]).error);
        assert build(rows[i]) == Failure(BuildAll(build, rows).error);
      }
    }
  }

  /** A row's record fails only with the missing-PID error. */
  lemma ProcessInfoError(headers: seq<string>, row: Element)
    ensures ProcessInfo(headers, row).Failure? ==> ProcessInfo(headers, row).error == KeyNotFound("PID")
  {
    PostProcessSpec(ZipFields(headers, row.children, ZipLength(headers, row.children)), GetCurrentName(row));
  }

  /** The extraction result for given headers, categories and patterns. */
  function Extract(headers: Option<seq<string>>, categories: Option<seq<Element>>, patterns: seq<string>)
    : Result<seq<Record>, AnalyzerError>
  {
    if headers.None? || categories.None? then Failure(NotStarted)
    else BuildAll(InfoOf(headers.value), Targets(patterns, categories.value))
  }

  /** A started extraction either yields record i for target i, or fails with
      the missing-PID error; it never reports "not started". */
  lemma ExtractStarted(headers: seq<string>, categories: seq<Element>, patterns: seq<string>)
    ensures var r, ts := Extract(Some(headers), Some(categories), patterns), Targets(patterns, categories);
      && (r.Success? ==> |r.value| == |ts| && forall i :: 0 <= i < |ts| ==> Success(r.value[i]) == ProcessInfo(headers, ts[i]))
      && (r.Failure? ==> r.error == KeyNotFound("PID"))
  {
    var ts := Targets(patterns, categories);
    BuildAllPointwise(InfoOf(headers), ts);
    var r := Extract(Some(headers), Some(categories), patterns);
    if r.Failure? {
      var i :| 0 <= i < |ts| && InfoOf(headers)(ts[i]) == Failure(r.error);
      ProcessInfoError(headers, ts[i]);
    }
  }

  /** Re-resolving the headers from the same column header yields the same
      headers, so the refresh at the start of every extraction is harmless. */
  lemma UpdateHeadersIdempotent(headers: Option<seq<string>>, columnHeader: Option<Element>)
    ensures UpdatedHeaders(UpdatedHeaders(headers, columnHeader), columnHeader) == UpdatedHeaders(headers, columnHeader)
  {
  }

  /** One row's record: the loop that `Zip` runs with its side-effecting
      lambda, then the post-processing. */
  method BuildProcessInfo(headers: seq<string>, target: Element) returns (r: Result<Record, AnalyzerError>)
    ensures r == ProcessInfo(headers, target)
  {
    var properties := target.children;
    var processInfo: Record := [];
    var i := 0;
    while i < |headers| && i < |properties|
      invariant 0 <= i <= |headers| && 0 <= i <= |properties|
      invariant processInfo == ZipFields(headers, properties, i)
    {
      var value := GetCurrentName(properties[i]);
      processInfo := Set(processInfo, headers[i], value);
      i := i + 1;
    }
    assert i == ZipLength(headers, properties);
    ghost var zipped := processInfo;
    processInfo := Set(processInfo, NameKey, GetCurrentName(target));
    var pid := Get(processInfo, PidKey);
    assert PostProcess(zipped, GetCurrentName(target)) == ProcessInfo(headers, target);
    if pid.None? {
      return Failure(KeyNotFound(PidKey));
    }
    if pid.value == "" {
      processInfo := Set(processInfo, PidKey, "0");
    }
    r := Success(processInfo);
  }

  /** Regrouping a list around position `t`. */
  lemma Regroup<T>(a: seq<T>, b: seq<T>, t: nat)
    requires t < |b|
    ensures a + b[..t] + [b[t]] == a + b[..t + 1]
    ensures a + b[..t + 1] + b[t + 1..] == a + b
  {
    assert b[..t] + [b[t]] == b[..t + 1];
    assert b[..t + 1] + b[t + 1..] == b;
  }

  /** The inner loop of `ExtractFeaturedProcessInfo`: appends the record of
      every row in turn to `ret`, the records of the rows `done` before them,
      and stops at the first row that raises. */
  method AppendProcessInfos(headers: seq<string>, ret: seq<Record>, rows: seq<Element>, ghost done: seq<Element>)
    returns (r: Result<seq<Record>, AnalyzerError>)
    requires BuildAll(InfoOf(headers), done) == Success(ret)
    ensures r == BuildAll(InfoOf(headers), done + rows)
  {
    var acc := ret;
    var t := 0;
    assert done + rows[..0] == done;
    while t < |rows|
      invariant 0 <= t <= |rows|
      invariant BuildAll(InfoOf(headers), done + rows[..t]) == Success(acc)
    {
      var processInfo := BuildProcessInfo(headers, rows[t]);
      BuildAllStep(InfoOf(headers), done + rows[..t], rows[t]);
      Regroup(done, rows, t);
      if processInfo.Failure? {
        BuildAllFailed(InfoOf(headers), done + rows[..t + 1], rows[t + 1..]);
        return Failure(processInfo.error);
      }
      acc := acc + [processInfo.value];
      t := t + 1;
    }
    assert rows[..t] == rows;
    r := Success(acc);
  }

  /** The analyzer's state: the fields of `TaskmgrAnalyzer` that the core
      reads and writes. `None` is C#'s null. */
  class TaskmgrAnalyzer {
    var featuredProcessPatterns: seq<string>
    var headers: Option<seq<string>>
    var categories: Option<seq<Element>>
    var columnHeader: Option<Element>

    constructor ()
      ensures featuredProcessPatterns == [] && headers == None && categories == None && columnHeader == None
    {
      featuredProcessPatterns := [];
      headers := None;
      categories := None;
      columnHeader := None;
    }

    /** `_UpdateHeaders`. */
    method UpdateHeaders()
      modifies this`headers
      ensures headers == UpdatedHeaders(old(headers), columnHeader)
    {
      if columnHeader.None? {
        return;
      }
      headers := Some(HeaderNames(columnHeader.value.children));
    }

    /** The anchor-locating part of `StartAnalyzer`. Fields assigned before
        the step that raises keep their new values, as in the source. */
    method StartAnalyzer(mainWindow: Element, processPatterns: seq<string>) returns (r: Outcome<AnalyzerError>)
      modifies this
      ensures featuredProcessPatterns == processPatterns
      ensures r.Pass? <==> LocateAnchors(mainWindow).Success?
      ensures r.Fail? ==> r.error == LocateAnchors(mainWindow).error
      ensures r.Pass? ==>
        var a := LocateAnchors(mainWindow).value;
        categories == Some([a.foreground, a.background]) &&
        columnHeader == Some(a.columnHeader) && headers == Some(HeaderNames(a.columnHeader.children))
      ensures r.Fail? ==> categories == old(categories)
      ensures var root := FindOneBy(mainWindow, IsRoot);
        columnHeader == (if root.None? then old(columnHeader) else FindOneBy(root.value, IsColumnHeader))
      ensures headers == (if r == Fail(RootNotFound) then old(headers)
                          else if columnHeader.None? then old(headers)
                          else Some(HeaderNames(columnHeader.value.children)))
    {
      featuredProcessPatterns := processPatterns;
      var rootElement := FindRootElement(mainWindow);
      if rootElement.None? {
        return Fail(RootNotFound);
      }
      FindOneByFindsFirstMatch(mainWindow, IsRoot, rootElement.value);
      columnHeader := FindOneBy(rootElement.value, IsColumnHeader);
      if columnHeader.None? {
        return Fail(ColumnHeaderNotFound);
      }
      UpdateHeaders();
      var processMasterCategory := FindOneBy(rootElement.value, IsProcessMaster);
      if processMasterCategory.None? {
        return Fail(MasterCategoryNotFound);
      }
      var foregroundProcessCategory := FindOneBy(processMasterCategory.value, IsForeground);
      var backgroundProcessCategory := FindOneBy(processMasterCategory.value, IsBackground);
      if foregroundProcessCategory.None? || backgroundProcessCategory.None? {
        return Fail(CategoryNotFound);
      }
      categories := Some([foregroundProcessCategory.value, backgroundProcessCategory.value]);
      return Pass;
    }

    /** `ExtractFeaturedProcessInfo`: refreshes the headers, then fails with
        "Analyzer not started" or returns the records of every target row,
        category by category. Nothing but the headers changes. */
    method ExtractFeaturedProcessInfo() returns (r: Result<seq<Record>, AnalyzerError>)
      modifies this`headers
      ensures headers == UpdatedHeaders(old(headers), columnHeader)
      ensures r == Extract(headers, categories, featuredProcessPatterns)
      ensures r == Failure(NotStarted) <==> headers.None? || categories.None?
    {
      UpdateHeaders();
      if headers.None? || categories.None? {
        return Failure(NotStarted);
      }
      var hs := headers.value;
      var cats := categories.value;
      var patterns := featuredProcessPatterns;
      var ret: seq<Record> := [];
      var c := 0;
      while c < |cats|
        invariant 0 <= c <= |cats|
        invariant headers == Some(hs)
        invariant BuildAll(InfoOf(hs), Targets(patterns, cats[..c])) == Success(ret)
      {
        var targetProcesses := SelectTargetProcesses(patterns, cats[c]);
        ConcatMapStep(CategoryTargets(patterns), cats, c);
        if |targetProcesses| > 0 {
          var res := AppendProcessInfos(hs, ret, targetProcesses, Targets(patterns, cats[..c]));
          if res.Failure? {
            BuildAllFailedEarly(InfoOf(hs), CategoryTargets(patterns), cats, c);
            ExtractStarted(hs, cats, patterns);
            return res;
          }
          ret := res.value;
        } else {
          assert Targets(patterns, cats[..c]) + targetProcesses == Targets(patterns, cats[..c]);
        }
        c := c + 1;
      }
      assert cats[..c] == cats;
      r := Success(ret);
    }
  }
}
