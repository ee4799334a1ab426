/**
 * The version synchronizer of scripts/version_plan.py (sync_versions, _apply_version_edits):
 * many declared edits, prepared in memory, checked for a common fixpoint, then committed file by
 * file. The editor is a parameter: any function of the content and the declaration that may fail.
 */
module Sync {
  import opened Wrappers
  import opened Ordering
  import Json
  import J = JsonEditor
  import T = TomlEditor
  import Text
  import Toml
  import TomlDocument
  import TomlSplice

  type Files = map<string, string>

  /** What is edited, and by which selector (format, field, package and projected value). */
  datatype Declaration<S> = Declaration(path: string, selector: S)

  type Editor<!S> = (string, S) -> Option<string>

  ghost function Names<S>(declarations: seq<Declaration<S>>): set<string> {
    set d | d in declarations :: d.path
  }

  // ---- Preparation, one file at a time ---------------------------------------------------------

  /** The content of one file after all declarations that name it. */
  function EditFile<S>(edit: Editor<S>, content: string, declarations: seq<Declaration<S>>, name: string): Option<string> {
    if declarations == [] then Some(content)
    else
      var before := EditFile(edit, content, declarations[..|declarations| - 1], name);
      var last := declarations[|declarations| - 1];
      if before.None? || last.path != name then before else edit(before.value, last.selector)
  }

  /** The contents of one file on its way through the declarations: those that name it edit it, in order. */
  ghost predicate Course<S>(edit: Editor<S>, declarations: seq<Declaration<S>>, name: string, contents: seq<string>) {
    && |contents| == |declarations| + 1
    && forall i | 0 <= i < |declarations| ::
         if declarations[i].path == name then edit(contents[i], declarations[i].selector) == Some(contents[i + 1])
         else contents[i + 1] == contents[i]
  }

  lemma {:induction false} EditFileRuns<S>(edit: Editor<S>, content: string, declarations: seq<Declaration<S>>, name: string,
                                           result: string)
    ensures EditFile(edit, content, declarations, name) == Some(result) <==>
              exists contents :: && Course(edit, declarations, name, contents)
                                 && contents[0] == content && contents[|declarations|] == result
  {
    if declarations == [] {
      if result == content { assert Course(edit, declarations, name, [content]) && [content][0] == content; }
    } else {
      var n := |declarations| - 1;
      if EditFile(edit, content, declarations, name) == Some(result) {
        var between := EditFile(edit, content, declarations[..n], name).value;
        EditFileRuns(edit, content, declarations[..n], name, between);
        var front :| Course(edit, declarations[..n], name, front) && front[0] == content && front[n] == between;
        var contents := front + [result];
        assert Course(edit, declarations, name, contents) && contents[0] == content && contents[|declarations|] == result;
      }
      if contents :| Course(edit, declarations, name, contents) && contents[0] == content && contents[|declarations|] == result {
        var front := contents[..n + 1];
        assert Course(edit, declarations[..n], name, front) && front[0] == content && front[n] == contents[n];
        EditFileRuns(edit, content, declarations[..n], name, contents[n]);
      }
    }
  }

  ghost predicate IsFixpoint<S>(edit: Editor<S>, files: Files, d: Declaration<S>) {
    d.path in files && edit(files[d.path], d.selector) == Some(files[d.path])
  }

  /** All declared files after their edits. */
  ghost predicate EditedFiles<S>(edit: Editor<S>, files: Files, declarations: seq<Declaration<S>>, edited: Files) {
    && edited.Keys == Names(declarations) && edited.Keys <= files.Keys
    && forall n | n in edited :: EditFile(edit, files[n], declarations, n) == Some(edited[n])
  }

  /** Preparation succeeds with these contents: every edit works, and none undoes another. */
  ghost predicate Prepares<S>(edit: Editor<S>, files: Files, declarations: seq<Declaration<S>>, edited: Files) {
    EditedFiles(edit, files, declarations, edited) && forall d | d in declarations :: IsFixpoint(edit, edited, d)
  }

  lemma PreparedOnce<S>(edit: Editor<S>, files: Files, declarations: seq<Declaration<S>>, a: Files, b: Files)
    requires EditedFiles(edit, files, declarations, a) && EditedFiles(edit, files, declarations, b)
    ensures a == b
  {
    assert forall n | n in a :: Some(a[n]) == Some(b[n]);
  }

  lemma {:induction false} EditFileFixed<S>(edit: Editor<S>, content: string, declarations: seq<Declaration<S>>, name: string)
    requires forall d | d in declarations && d.path == name :: edit(content, d.selector) == Some(content)
    ensures EditFile(edit, content, declarations, name) == Some(content)
  {
    if declarations != [] {
      EditFileFixed(edit, content, declarations[..|declarations| - 1], name);
    }
  }

  /**
   * Contents that passed the fixpoint check are left alone by any list of the same declarations,
   * in any order and with any repetition.
   */
  lemma FixpointsPrepare<S>(edit: Editor<S>, files: Files, declarations: seq<Declaration<S>>)
    requires forall d | d in declarations :: IsFixpoint(edit, files, d)
    ensures Prepares(edit, files, declarations, map n | n in Names(declarations) * files.Keys :: files[n])
  {
    forall n | n in Names(declarations) ensures EditFile(edit, files[n], declarations, n) == Some(files[n]) {
      EditFileFixed(edit, files[n], declarations, n);
    }
  }

  // ---- Commit ------------------------------------------------------------------------------------

  /** The files after the first replacements of a commit. */
  function Replaced(files: Files, edited: Files, replaced: seq<string>): Files {
    map n | n in files :: if n in replaced && n in edited then edited[n] else files[n]
  }

  function Changed(originals: Files, edited: Files): set<string>
    requires originals.Keys == edited.Keys
  {
    set n | n in originals && originals[n] != edited[n]
  }

  /** A commit that was cut short anywhere: each file holds its old or its new content. */
  ghost predicate CutShort(before: Files, edited: Files, after: Files) {
    && after.Keys == before.Keys
    && forall n | n in before ::
         after[n] == before[n] || (n in edited && after[n] == edited[n])
  }

  /**
   * After a commit that was cut short, preparing again comes to the same contents: running the
   * synchronizer once more completes the interrupted one.
   */
  lemma Recovers<S>(edit: Editor<S>, before: Files, declarations: seq<Declaration<S>>, edited: Files, after: Files)
    requires Prepares(edit, before, declarations, edited) && CutShort(before, edited, after)
    ensures Prepares(edit, after, declarations, edited)
  {
    forall n | n in edited ensures EditFile(edit, after[n], declarations, n) == Some(edited[n]) {
      if after[n] != before[n] {
        forall d | d in declarations && d.path == n ensures edit(edited[n], d.selector) == Some(edited[n]) {
          assert IsFixpoint(edit, edited, d);
        }
        EditFileFixed(edit, edited[n], declarations, n);
      }
    }
  }

  /** The declared files whose prepared content differs from the old one. */
  ghost function Drifting(before: Files, edited: Files): set<string> {
    set n | n in edited && n in before && edited[n] != before[n]
  }

  /** Of the drifting files, those with fewer than so many drifting files before them in name order are new; all else is old. */
  ghost predicate FirstAreNew(before: Files, edited: Files, after: Files, count: nat) {
    && after.Keys == before.Keys
    && forall n | n in before ::
         after[n] == if n in Drifting(before, edited) && LesserCount(Drifting(before, edited), n) < count
                     then edited[n] else before[n]
  }

  /** What other processes do to the files in front of each step of a commit. */
  type Others = (nat, Files) -> Files

  predicate StillHolds(files: Files, originals: Files, name: string) {
    name in originals && name in files && files[name] == originals[name]
  }

  /** The files behind some replacements: others may act in front of each recheck and each replacement. */
  function Committed(files: Files, edited: Files, drift: seq<string>, others: Others, k: nat): Files
    requires k <= |drift| && forall n | n in drift :: n in edited
    decreases k, 0
  {
    if k == 0 then others(0, files)
    else others(2 * k, Rechecked(files, edited, drift, others, k - 1))[drift[k - 1] := edited[drift[k - 1]]]
  }

  /** The files that the recheck in front of a replacement reads. */
  function Rechecked(files: Files, edited: Files, drift: seq<string>, others: Others, k: nat): Files
    requires k <= |drift| && forall n | n in drift :: n in edited
    decreases k, 1
  {
    others(2 * k + 1, Committed(files, edited, drift, others, k))
  }

  const ALONE: Others := (step, files) => files

  // ---- The program -------------------------------------------------------------------------------

  datatype Outcome = Refused | Drifted | Interrupted | Overtaken | Synced

  /** The checked-out files. */
  class Checkout {
    var files: Files

    constructor (files: Files)
      ensures this.files == files
    {
      this.files := files;
    }

    /** Applies all edits in memory and demands that each still holds at the end. */
    method Prepare<S>(edit: Editor<S>, declarations: seq<Declaration<S>>) returns (r: Option<(Files, Files)>)
      ensures r.Some? ==> Prepares(edit, files, declarations, r.value.1)
      ensures r.Some? ==> r.value.0 == map n | n in Names(declarations) * files.Keys :: files[n]
      ensures r.None? ==> forall edited :: !Prepares(edit, files, declarations, edited)
    {
      hide EditFile, EditedFiles, Prepares, IsFixpoint, Names;
      var originals: Files, edited: Files := map[], map[];
      NothingEdited(edit, files, declarations);
      for i := 0 to |declarations|
        invariant EditedFiles(edit, files, declarations[..i], edited)
        invariant originals == map n | n in Names(declarations[..i]) * files.Keys :: files[n]
        invariant edited.Keys == originals.Keys
      {
        var d := declarations[i];
        if d.path !in files {
          FileMissing(edit, files, declarations, d);
          return None;
        }
        if d.path !in originals {
          ghost var before := edited;
          originals := originals[d.path := files[d.path]];
          edited := edited[d.path := files[d.path]];
          assert edited - {d.path} == before;
        }
        NextNames(declarations, i);
        EditNext(edit, files, declarations, i, edited);
        var updated := edit(edited[d.path], d.selector);
        if updated.None? {
          return None;
        }
        edited := edited[d.path := updated.value];
      }
      assert declarations[..|declarations|] == declarations;
      for i := 0 to |declarations|
        invariant forall d | d in declarations[..i] :: IsFixpoint(edit, edited, d)
      {
        var d := declarations[i];
        DeclaredEdited(edit, files, declarations, edited, d);
        FixpointMeans(edit, edited, d);
        var checked := edit(edited[d.path], d.selector);
        if checked != Some(edited[d.path]) {
          Conflict(edit, files, declarations, edited, d);
          return None;
        }
      }
      assert declarations[..|declarations|] == declarations;
      AllHold(edit, files, declarations, edited);
      return Some((originals, edited));
    }

    /**
     * Replaces the changed files one at a time, provided that every declared file still holds what was read,
     * and each changed file still does right in front of its replacement. Other processes may write at any
     * time, and the process may end after any number of replacements.
     */
    method Commit(originals: Files, edited: Files, drift: seq<string>, survives: nat, others: Others)
      returns (outcome: Outcome, replaced: nat)
      requires originals.Keys == edited.Keys && forall n | n in drift :: n in edited
      modifies this
      ensures outcome in {Refused, Interrupted, Overtaken, Synced} && replaced <= |drift| && replaced <= survives
      ensures outcome == Refused <==>
                exists n :: n in originals && (n !in others(0, old(files)) || others(0, old(files))[n] != originals[n])
      ensures outcome == Refused ==> replaced == 0
      ensures forall k | 0 <= k < replaced ::
                var seen := Rechecked(old(files), edited, drift, others, k);
                drift[k] in seen && drift[k] in originals && seen[drift[k]] == originals[drift[k]]
      ensures outcome == Overtaken ==>
                && replaced < |drift| && files == Rechecked(old(files), edited, drift, others, replaced)
                && drift[replaced] in originals
                && (drift[replaced] !in files || files[drift[replaced]] != originals[drift[replaced]])
      ensures outcome != Overtaken ==> files == Committed(old(files), edited, drift, others, replaced)
      ensures outcome == Interrupted ==> replaced == survives < |drift|
      ensures outcome == Synced ==> replaced == |drift|
    {
      hide Committed, Rechecked;
      CommitStarts(files, edited, drift, others);
      files := others(0, files);
      replaced := 0;
      if exists n :: n in originals && !StillHolds(files, originals, n) {
        return Refused, 0;
      }
      while replaced < |drift|
        invariant replaced <= |drift| && replaced <= survives
        invariant files == Committed(old(files), edited, drift, others, replaced)
        invariant forall k | 0 <= k < replaced :: StillHolds(Rechecked(old(files), edited, drift, others, k), originals, drift[k])
      {
        if replaced == survives {
          return Interrupted, replaced;
        }
        var name := drift[replaced];
        CommitStep(old(files), edited, drift, others, replaced);
        files := others(2 * replaced + 1, files);
        if !StillHolds(files, originals, name) {
          return Overtaken, replaced;
        }
        files := others(2 * (replaced + 1), files)[name := edited[name]];
        replaced := replaced + 1;
      }
      return Synced, replaced;
    }

    /** One run: prepare, then compare in check mode, or commit. */
    method Run<S>(edit: Editor<S>, declarations: seq<Declaration<S>>, check: bool, survives: nat)
      returns (outcome: Outcome, ghost edited: Files)
      modifies this
      ensures outcome != Overtaken
      ensures outcome == Refused ==> files == old(files)
      ensures outcome == Refused <==> forall e :: !Prepares(edit, old(files), declarations, e)
      ensures outcome != Refused ==> Prepares(edit, old(files), declarations, edited)
      ensures outcome == Drifted <==> check && outcome != Refused && Drifting(old(files), edited) != {}
      ensures outcome == Drifted ==> files == old(files) && old(files) + edited != old(files)
      ensures outcome == Interrupted <==> !check && outcome != Refused && survives < |Drifting(old(files), edited)|
      ensures outcome == Interrupted ==>
                CutShort(old(files), edited, files) && FirstAreNew(old(files), edited, files, survives)
      ensures outcome == Synced ==> files == old(files) + edited
      ensures outcome == Synced && check ==> files == old(files)
    {
      hide Prepares, Names;
      var prepared := Prepare(edit, declarations);
      edited := map[];
      if prepared.None? {
        return Refused, edited;
      }
      var (originals, after) := prepared.value;
      edited := after;
      NamesInFiles(edit, files, declarations, after);
      var drift := SortedSet(Changed(originals, after));
      ChangedDrifts(files, originals, after);
      ListedBehindLesser(Drifting(files, after), 0);
      if check {
        if drift == [] {
          NothingDrifts(files, originals, after);
          return Synced, edited;
        }
        assert (files + after)[drift[0]] != files[drift[0]];
        return Drifted, edited;
      }
      var replaced: nat;
      ghost var before := files;
      outcome, replaced := Commit(originals, after, drift, survives, ALONE);
      UndisturbedCommit(before, originals, after, drift, replaced);
      ReplacedAreFirst(before, after, drift, replaced);
    }
  }

  lemma CommitStarts(files: Files, edited: Files, drift: seq<string>, others: Others)
    requires forall n | n in drift :: n in edited
    ensures Committed(files, edited, drift, others, 0) == others(0, files)
  {
  }

  lemma CommitStep(files: Files, edited: Files, drift: seq<string>, others: Others, k: nat)
    requires k < |drift| && forall n | n in drift :: n in edited
    ensures var seen := Rechecked(files, edited, drift, others, k);
            && seen == others(2 * k + 1, Committed(files, edited, drift, others, k))
            && Committed(files, edited, drift, others, k + 1) == others(2 * (k + 1), seen)[drift[k] := edited[drift[k]]]
  {
  }

  /** Without other processes a commit that has begun is only ever cut short, never overtaken. */
  lemma {:induction false} CommittedAlone(files: Files, edited: Files, drift: seq<string>, k: nat)
    requires k <= |drift| && (forall n | n in drift :: n in edited) && edited.Keys <= files.Keys
    ensures Committed(files, edited, drift, ALONE, k) == Replaced(files, edited, drift[..k])
    ensures Rechecked(files, edited, drift, ALONE, k) == Replaced(files, edited, drift[..k])
  {
    hide Replaced;
    if k == 0 {
      NoneReplaced(files, edited);
      assert drift[..0] == [];
    } else {
      CommittedAlone(files, edited, drift, k - 1);
      OneMoreReplaced(files, edited, drift, k - 1);
    }
  }

  lemma NotYetReplaced(drift: seq<string>, k: nat)
    requires Ascending(drift) && k < |drift|
    ensures drift[k] !in drift[..k]
  {
    LessIsTotal(drift[k], drift[k]);
  }

  lemma UndisturbedCommit(files: Files, originals: Files, edited: Files, drift: seq<string>, k: nat)
    requires originals.Keys == edited.Keys && originals.Keys <= files.Keys && k <= |drift| && Ascending(drift)
    requires forall n :: n in drift <==> n in Changed(originals, edited)
    requires forall n | n in originals :: files[n] == originals[n]
    ensures Committed(files, edited, drift, ALONE, k) == Replaced(files, edited, drift[..k])
    ensures CutShort(files, edited, Replaced(files, edited, drift[..k]))
    ensures k == |drift| ==> Replaced(files, edited, drift[..k]) == files + edited
    ensures k < |drift| ==> StillHolds(Rechecked(files, edited, drift, ALONE, k), originals, drift[k])
  {
    CommittedAlone(files, edited, drift, k);
    ReplacedCutsShort(files, edited, drift[..k]);
    if k == |drift| {
      assert drift[..k] == drift;
      AllReplaced(files, originals, edited, drift);
    } else {
      NotYetReplaced(drift, k);
      assert drift[k] in drift;
    }
  }

  lemma NamesInFiles<S>(edit: Editor<S>, files: Files, declarations: seq<Declaration<S>>, edited: Files)
    requires Prepares(edit, files, declarations, edited)
    ensures edited.Keys == Names(declarations) && edited.Keys <= files.Keys
  {
    hide EditFile, IsFixpoint;
  }

  lemma ChangedDrifts(files: Files, originals: Files, edited: Files)
    requires originals.Keys == edited.Keys && forall n | n in originals :: n in files && files[n] == originals[n]
    ensures Changed(originals, edited) == Drifting(files, edited)
  {
  }

  /** The replaced files, the front of the sorted listing, are those with the fewest drifting files before them. */
  lemma ReplacedAreFirst(files: Files, edited: Files, drift: seq<string>, k: nat)
    requires drift == SortedSet(Drifting(files, edited)) && k <= |drift|
    ensures FirstAreNew(files, edited, Replaced(files, edited, drift[..k]), k)
  {
    hide SortedSet, LesserCount;
    var names := Drifting(files, edited);
    forall n | n in files
      ensures n in drift[..k] <==> n in names && LesserCount(names, n) < k
    {
      ListedBehindLesser(names, 0);
      if n in names {
        var i :| 0 <= i < |drift| && drift[i] == n;
        ListedBehindLesser(names, i);
        if i < k { assert drift[..k][i] == n; }
      }
      if n in drift[..k] {
        var i :| 0 <= i < k && drift[..k][i] == n;
        assert drift[i] == n;
        ListedBehindLesser(names, i);
      }
    }
  }

  lemma NothingDrifts(files: Files, originals: Files, edited: Files)
    requires originals.Keys == edited.Keys && forall n :: n !in Changed(originals, edited)
    requires forall n | n in originals :: n in files && originals[n] == files[n]
    ensures files + edited == files
  {
    forall n | n in edited ensures edited[n] == files[n] { assert n !in Changed(originals, edited); }
  }

  lemma NoneReplaced(files: Files, edited: Files)
    ensures Replaced(files, edited, []) == files
  {
  }

  lemma OneMoreReplaced(files: Files, edited: Files, drift: seq<string>, i: nat)
    requires i < |drift| && drift[i] in edited && drift[i] in files
    ensures Replaced(files, edited, drift[..i + 1]) == Replaced(files, edited, drift[..i])[drift[i] := edited[drift[i]]]
  {
    assert drift[..i + 1] == drift[..i] + [drift[i]];
  }

  lemma ReplacedCutsShort(files: Files, edited: Files, replaced: seq<string>)
    ensures CutShort(files, edited, Replaced(files, edited, replaced))
  {
  }

  lemma AllReplaced(files: Files, originals: Files, edited: Files, drift: seq<string>)
    requires originals.Keys == edited.Keys && forall n :: n in drift <==> n in Changed(originals, edited)
    requires forall n | n in originals :: n in files && files[n] == originals[n]
    ensures Replaced(files, edited, drift) == files + edited
  {
    var replaced := Replaced(files, edited, drift);
    forall n | n in files ensures replaced[n] == (files + edited)[n] {
      if n in edited && n !in drift { assert n in originals && n !in Changed(originals, edited); }
    }
  }

  lemma NextNames<S>(declarations: seq<Declaration<S>>, i: nat)
    requires i < |declarations|
    ensures Names(declarations[..i + 1]) == Names(declarations[..i]) + {declarations[i].path}
  {
    assert declarations[..i + 1] == declarations[..i] + [declarations[i]];
  }

  lemma FixpointMeans<S>(edit: Editor<S>, files: Files, d: Declaration<S>)
    requires d.path in files
    ensures IsFixpoint(edit, files, d) <==> edit(files[d.path], d.selector) == Some(files[d.path])
  {
  }

  lemma AllHold<S>(edit: Editor<S>, files: Files, declarations: seq<Declaration<S>>, edited: Files)
    requires EditedFiles(edit, files, declarations, edited) && forall d | d in declarations :: IsFixpoint(edit, edited, d)
    ensures Prepares(edit, files, declarations, edited)
  {
  }

  lemma NothingEdited<S>(edit: Editor<S>, files: Files, declarations: seq<Declaration<S>>)
    ensures EditedFiles(edit, files, declarations[..0], map[])
  {
  }

  lemma FileMissing<S>(edit: Editor<S>, files: Files, declarations: seq<Declaration<S>>, d: Declaration<S>)
    requires d in declarations && d.path !in files
    ensures forall edited :: !Prepares(edit, files, declarations, edited)
  {
    assert d.path in Names(declarations);
  }

  lemma DeclaredEdited<S>(edit: Editor<S>, files: Files, declarations: seq<Declaration<S>>, edited: Files, d: Declaration<S>)
    requires d in declarations && EditedFiles(edit, files, declarations, edited)
    ensures d.path in edited
  {
    assert d.path in Names(declarations);
  }

  lemma Conflict<S>(edit: Editor<S>, files: Files, declarations: seq<Declaration<S>>, edited: Files, d: Declaration<S>)
    requires EditedFiles(edit, files, declarations, edited) && d in declarations && !IsFixpoint(edit, edited, d)
    ensures forall other :: !Prepares(edit, files, declarations, other)
  {
    forall other ensures !Prepares(edit, files, declarations, other) {
      if Prepares(edit, files, declarations, other) { PreparedOnce(edit, files, declarations, edited, other); }
    }
  }

  /** One more declaration: its file is edited further, or the whole preparation fails. */
  lemma EditedSoFar<S>(edit: Editor<S>, files: Files, declarations: seq<Declaration<S>>, i: nat, edited: Files)
    requires i < |declarations| && declarations[i].path in files && declarations[i].path in edited
    requires var path := declarations[i].path;
             EditedFiles(edit, files, declarations[..i], edited)
             || (path !in Names(declarations[..i]) && edited[path] == files[path]
                 && EditedFiles(edit, files, declarations[..i], edited - {path}))
    ensures var path := declarations[i].path;
            && EditFile(edit, files[path], declarations[..i], path) == Some(edited[path])
            && (forall n | n in edited && n != path ::
                  n in files && EditFile(edit, files[n], declarations[..i], n) == Some(edited[n]))
            && edited.Keys == Names(declarations[..i]) + {path} && edited.Keys <= files.Keys
  {
    hide Names, EditFile;
    var path := declarations[i].path;
    if path !in Names(declarations[..i]) {
      NoneNamed(declarations[..i], path);
      EditFileFixed(edit, files[path], declarations[..i], path);
    }
  }

  lemma NoneNamed<S>(declarations: seq<Declaration<S>>, name: string)
    requires name !in Names(declarations)
    ensures forall d | d in declarations :: d.path != name
  {
  }

  lemma EditNext<S>(edit: Editor<S>, files: Files, declarations: seq<Declaration<S>>, i: nat, edited: Files)
    requires i < |declarations| && declarations[i].path in files && declarations[i].path in edited
    requires var path := declarations[i].path;
             EditedFiles(edit, files, declarations[..i], edited)
             || (path !in Names(declarations[..i]) && edited[path] == files[path]
                 && EditedFiles(edit, files, declarations[..i], edited - {path}))
    ensures var d := declarations[i];
            match edit(edited[d.path], d.selector)
            case None => forall other :: !Prepares(edit, files, declarations, other)
            case Some(updated) => EditedFiles(edit, files, declarations[..i + 1], edited[d.path := updated])
  {
    hide Names, EditedFiles;
    var d := declarations[i];
    var next := declarations[..i + 1];
    EditedSoFar(edit, files, declarations, i, edited);
    NextNames(declarations, i);
    assert next[..i] == declarations[..i];
    match edit(edited[d.path], d.selector)
    case None =>
      EditFileStuck(edit, files[d.path], declarations, d.path, i + 1);
      NeverPrepares(edit, files, declarations, d);
    case Some(updated) =>
      var after := edited[d.path := updated];
      forall n | n in after ensures n in files && EditFile(edit, files[n], next, n) == Some(after[n]) {
      }
      assert EditedFiles(edit, files, next, after) by { AreEdited(edit, files, next, after); }
  }

  lemma AreEdited<S>(edit: Editor<S>, files: Files, declarations: seq<Declaration<S>>, edited: Files)
    requires edited.Keys == Names(declarations) && edited.Keys <= files.Keys
    requires forall n | n in edited :: n in files && EditFile(edit, files[n], declarations, n) == Some(edited[n])
    ensures EditedFiles(edit, files, declarations, edited)
  {
    hide EditFile, Names;
  }

  lemma NeverPrepares<S>(edit: Editor<S>, files: Files, declarations: seq<Declaration<S>>, d: Declaration<S>)
    requires d in declarations && d.path in files && EditFile(edit, files[d.path], declarations, d.path).None?
    ensures forall other :: !Prepares(edit, files, declarations, other)
  {
    hide EditFile, IsFixpoint;
    assert d.path in Names(declarations);
  }

  lemma {:induction false} EditFileStuck<S>(edit: Editor<S>, content: string, declarations: seq<Declaration<S>>,
                                            name: string, n: nat)
    requires n <= |declarations| && EditFile(edit, content, declarations[..n], name).None?
    ensures EditFile(edit, content, declarations, name).None?
  {
    if n < |declarations| {
      assert declarations[..|declarations| - 1][..n] == declarations[..n];
      EditFileStuck(edit, content, declarations[..|declarations| - 1], name, n);
    } else {
      assert declarations[..n] == declarations;
    }
  }

  // ---- Runs after a successful run ------------------------------------------------------------------

  /**
   * After a successful run, a check of the same declarations, in any order, with any repetition and
   * with any of them left out, succeeds and finds nothing to change.
   */
  lemma CheckAfterSync<S>(edit: Editor<S>, before: Files, declarations: seq<Declaration<S>>, edited: Files,
                          again: seq<Declaration<S>>)
    requires Prepares(edit, before, declarations, edited) && forall d | d in again :: d in declarations
    ensures var files := before + edited;
            && (exists e :: Prepares(edit, files, again, e))
            && (forall e :: Prepares(edit, files, again, e) ==> files + e == files)
  {
    var files := before + edited;
    forall d | d in again ensures IsFixpoint(edit, files, d) {
      assert IsFixpoint(edit, edited, d);
    }
    FixpointsPrepare(edit, files, again);
    var same := map n | n in Names(again) * files.Keys :: files[n];
    forall e | Prepares(edit, files, again, e) ensures files + e == files {
      PreparedOnce(edit, files, again, same, e);
    }
  }

  lemma {:induction false} EditFileAlone<S>(edit: Editor<S>, content: string, declarations: seq<Declaration<S>>, k: nat)
    requires k < |declarations|
    requires forall i, j | 0 <= i < j < |declarations| :: declarations[i].path != declarations[j].path
    ensures EditFile(edit, content, declarations, declarations[k].path) == edit(content, declarations[k].selector)
  {
    var front, name := declarations[..|declarations| - 1], declarations[k].path;
    if k < |front| {
      EditFileAlone(edit, content, front, k);
    } else {
      EditFileFixed(edit, content, front, name);
    }
  }

  /** Declarations of different files with edits that keep their own results never conflict. */
  lemma SeparateFilesPrepare<S>(edit: Editor<S>, files: Files, declarations: seq<Declaration<S>>)
    requires forall i, j | 0 <= i < j < |declarations| :: declarations[i].path != declarations[j].path
    requires forall d | d in declarations :: d.path in files && edit(files[d.path], d.selector).Some?
    requires forall d | d in declarations ::
               var result := edit(files[d.path], d.selector).value; edit(result, d.selector) == Some(result)
    ensures exists edited :: Prepares(edit, files, declarations, edited)
  {
    var edited := map n | n in Names(declarations) ::
      var after := EditFile(edit, files[n], declarations, n); if after.Some? then after.value else "";
    forall d | d in declarations
      ensures EditFile(edit, files[d.path], declarations, d.path) == Some(edited[d.path])
      ensures IsFixpoint(edit, edited, d)
    {
      var k :| 0 <= k < |declarations| && declarations[k] == d;
      EditFileAlone(edit, files[d.path], declarations, k);
      assert d.path in Names(declarations);
    }
    assert EditedFiles(edit, files, declarations, edited);
    assert Prepares(edit, files, declarations, edited);
  }

  // ---- JSON files -----------------------------------------------------------------------------------

  type JsonSelector = (J.Declaration, J.Projected)

  function JsonEdit(content: string, selector: JsonSelector): Option<string> {
    J.EditJson(content, selector.0, selector.1)
  }

  /** One JSON declaration a file, none renaming its package: the fixpoint check never refuses. */
  lemma JsonFilesPrepare(files: Files, declarations: seq<Declaration<JsonSelector>>)
    requires forall i, j | 0 <= i < j < |declarations| :: declarations[i].path != declarations[j].path
    requires forall d | d in declarations ::
               && d.path in files && JsonEdit(files[d.path], d.selector).Some?
               && !J.Renames(d.selector.0, d.selector.1)
    ensures exists edited :: Prepares(JsonEdit, files, declarations, edited)
  {
    forall d | d in declarations
      ensures var result := JsonEdit(files[d.path], d.selector).value; JsonEdit(result, d.selector) == Some(result)
    {
      J.EditTwice(files[d.path], d.selector.0, d.selector.1, JsonEdit(files[d.path], d.selector).value);
    }
    SeparateFilesPrepare(JsonEdit, files, declarations);
  }

  // ---- TOML files -----------------------------------------------------------------------------------

  type TomlSelector = (T.Selector, J.Projected)

  function TomlEdit(reader: T.Reader, content: string, selector: TomlSelector): Option<string> {
    T.EditToml(reader, content, selector.0, selector.1)
  }

  function TomlEditorWith(reader: T.Reader): Editor<TomlSelector> {
    (content, selector) => TomlEdit(reader, content, selector)
  }

  /** One TOML declaration a file, none renaming its package: the fixpoint check never refuses. */
  lemma TomlFilesPrepare(reader: T.Reader, files: Files, declarations: seq<Declaration<TomlSelector>>)
    requires TomlSplice.ReadsKeys(reader.keyOf)
    requires forall i, j | 0 <= i < j < |declarations| :: declarations[i].path != declarations[j].path
    requires forall d | d in declarations ::
               && T.IsOneLine(d.selector.1) && !T.Renames(d.selector.0, d.selector.1)
               && d.path in files && TomlEdit(reader, files[d.path], d.selector).Some?
               && T.KeepsSelection(reader, files[d.path], d.selector.0, d.selector.1,
                                   TomlEdit(reader, files[d.path], d.selector).value)
    ensures exists edited :: Prepares(TomlEditorWith(reader), files, declarations, edited)
  {
    var edit := TomlEditorWith(reader);
    hide T.EditToml, T.KeepsSelection, T.Renames, T.IsOneLine, TomlSplice.ReadsKeys;
    forall d | d in declarations
      ensures var result := edit(files[d.path], d.selector).value; edit(result, d.selector) == Some(result)
    {
      T.EditTwice(reader, files[d.path], d.selector.0, d.selector.1, TomlEdit(reader, files[d.path], d.selector).value);
    }
    SeparateFilesPrepare(edit, files, declarations);
  }

  /** The same for a parser that agrees with the line reader, on files that scanner and grammar read alike. */
  lemma TomlFilesPrepareByLines(reader: T.Reader, valueOf: string -> Option<Json.Value>, files: Files,
                                declarations: seq<Declaration<TomlSelector>>)
    requires TomlSplice.ReadsKeys(reader.keyOf) && TomlSplice.ReadsKeys(reader.keyOf, true)
    requires TomlDocument.ReadsLines(reader, valueOf)
    requires forall i, j | 0 <= i < j < |declarations| :: declarations[i].path != declarations[j].path
    requires forall d | d in declarations ::
               && T.IsOneLine(d.selector.1) && !T.Renames(d.selector.0, d.selector.1)
               && d.path in files && Toml.AllReadAlike(Text.Lines(files[d.path]))
               && TomlEdit(reader, files[d.path], d.selector).Some?
    ensures exists edited :: Prepares(TomlEditorWith(reader), files, declarations, edited)
  {
    hide T.EditToml, T.KeepsSelection, T.OnlyChanges, T.Renames, T.IsOneLine, TomlSplice.ReadsKeys, TomlDocument.ReadsLines,
         Toml.AllReadAlike, Text.Lines;
    forall d | d in declarations
      ensures T.KeepsSelection(reader, files[d.path], d.selector.0, d.selector.1,
                               TomlEdit(reader, files[d.path], d.selector).value)
    {
      var (text, result) := (files[d.path], TomlEdit(reader, files[d.path], d.selector).value);
      TomlDocument.EditOnlyChanges(reader, valueOf, text, d.selector.0, d.selector.1, result);
      T.OnlyChangesKeeps(reader, text, d.selector.0, d.selector.1, result);
    }
    TomlFilesPrepare(reader, files, declarations);
  }
}
