// The task-list state of script.js: the in-memory `tasks` array, the
// snapshot persisted under the key "tasks", the rendered list entries and
// the text-entry field, and the operations that keep them in step.

module TodoList {
  import opened StringTrim
  import opened ArrayOps

  datatype Option<T> = None | Some(value: T)

  /** What addTask reports: the blocking "Please enter a task" notification,
      or the normalized text it went on with. */
  datatype Outcome = Rejected | Ok(task: string)

  /** A task as the list keeps it: non-empty, no white space at either end. */
  predicate IsTask(t: string) {
    t != [] && Trimmed(t)
  }

  predicate AllTasks(s: seq<string>) {
    forall k :: 0 <= k < |s| ==> IsTask(s[k])
  }

  /** Everything the list code reads or writes: the in-memory array, the
      persisted snapshot (read back as a list; an absent key reads as the
      empty list), the text of each rendered entry from top to bottom, and
      the value of the text-entry field. */
  datatype Page = Page(tasks: seq<string>, stored: seq<string>, display: seq<string>, input: string)
  {
    /** The three copies agree: the snapshot is the in-memory list, and the
        rendered entries are the same texts. Only as multisets: a removal
        deletes the clicked entry but the first equal task. */
    ghost predicate Synced() {
      stored == tasks && multiset(display) == multiset(tasks)
    }

    /** Every task held or shown is a proper task. */
    ghost predicate WellFormed() {
      AllTasks(tasks) && AllTasks(display)
    }
  }

  // ---------------------------------------------------------------- addTask

  /** The text addTask starts from: its argument, or the input field's value
      when it is called without one. */
  function RawText(p: Page, text: Option<string>): string {
    if text.None? then p.input else text.value
  }

  /** The trim-and-validate step of addTask, the one place it is defined:
      the trimmed text, or Rejected when nothing is left of it. */
  function Normalize(raw: string): Outcome {
    var t := Trim(raw);
    if t == [] then Rejected else Ok(t)
  }

  /** What addTask reports for text on page p. */
  function AddOutcome(p: Page, text: Option<string>): Outcome {
    Normalize(RawText(p, text))
  }

  /** The page after addTask(text, save): render the trimmed text, append and
      persist it if save is set, clear the input field; a blank text returns
      early and changes nothing. */
  function Added(p: Page, text: Option<string>, save: bool): Page {
    match AddOutcome(p, text)
    case Rejected => p
    case Ok(t) =>
      if save then Page(p.tasks + [t], p.tasks + [t], p.display + [t], "")
      else Page(p.tasks, p.stored, p.display + [t], "")
  }

  /** A text is rejected exactly when it is all white space, and a rejected
      call renders nothing, keeps both lists and leaves the input field. */
  lemma AddRejectsBlank(p: Page, text: Option<string>, save: bool)
    ensures AddOutcome(p, text) == Rejected <==> AllWhitespace(RawText(p, text))
    ensures AddOutcome(p, text) == Rejected ==> Added(p, text, save) == p
  {
  }

  /** An accepted text is the trimmed input, a proper task; it is rendered
      last; with save it is appended to the list and the snapshot is the new
      list, without save neither list changes; the input field is cleared. */
  lemma AddAppendsTrimmed(p: Page, text: Option<string>, save: bool)
    requires AddOutcome(p, text).Ok?
    ensures var t := AddOutcome(p, text).task;
      t == Trim(RawText(p, text)) && IsTask(t)
    ensures var t, q := AddOutcome(p, text).task, Added(p, text, save);
      q.display == p.display + [t] && q.input == ""
      && (if save then q.tasks == p.tasks + [t] && q.stored == q.tasks
          else q.tasks == p.tasks && q.stored == p.stored)
  {
  }

  /** addTask with save keeps the copies in step; with or without save it
      only ever adds proper tasks. */
  lemma AddKeepsInvariants(p: Page, text: Option<string>, save: bool)
    ensures p.WellFormed() ==> Added(p, text, save).WellFormed()
    ensures save && p.Synced() ==> Added(p, text, save).Synced()
  {
  }

  // ------------------------------------------------------- remove handler

  /** The page after a click on the remove button of display entry i: the
      entry leaves the display; the first task with the same text leaves the
      list and the snapshot is rewritten, unless no task has that text. */
  function AfterRemove(p: Page, i: nat): Page
    requires i < |p.display|
  {
    var text := p.display[i];
    var shown := p.(display := RemoveAt(p.display, i));
    var index := FirstIndexOf(p.tasks, text);
    if index > -1 then
      var rest := RemoveAt(p.tasks, index);
      shown.(tasks := rest, stored := rest)
    else
      shown
  }

  /** Exactly the clicked entry leaves the display. If its text is in the
      list, exactly the first equal task leaves it, the others keep their
      order and the snapshot is rewritten; otherwise neither list changes.
      The input field is untouched. */
  lemma RemoveEffect(p: Page, i: nat)
    requires i < |p.display|
    ensures var q := AfterRemove(p, i);
      q.input == p.input && q.display == p.display[..i] + p.display[i + 1..]
    ensures var q, text := AfterRemove(p, i), p.display[i];
      text !in p.tasks ==> q.tasks == p.tasks && q.stored == p.stored
    ensures var q, text := AfterRemove(p, i), p.display[i];
      var j := FirstIndexOf(p.tasks, text);
      text in p.tasks ==>
        0 <= j < |p.tasks| && p.tasks[j] == text && (forall k :: 0 <= k < j ==> p.tasks[k] != text)
        && q.tasks == p.tasks[..j] + p.tasks[j + 1..] && q.stored == q.tasks
  {
    var q, text := AfterRemove(p, i), p.display[i];
    assert q.display == p.display[..i] + p.display[i + 1..];
    var j := FirstIndexOf(p.tasks, text);
    if text in p.tasks {
      assert q.tasks == p.tasks[..j] + p.tasks[j + 1..];
    }
  }

  /** A removal keeps the copies in step, as multisets, and keeps every task
      proper; on a page in step the clicked entry always finds its task, so
      the not-found branch of the handler is never taken there. */
  lemma RemoveKeepsInvariants(p: Page, i: nat)
    requires i < |p.display|
    ensures p.Synced() ==> p.display[i] in p.tasks
    ensures p.Synced() ==> AfterRemove(p, i).Synced()
    ensures p.WellFormed() ==> AfterRemove(p, i).WellFormed()
  {
    var text := p.display[i];
    if p.Synced() {
      assert text in multiset(p.display);
      assert text in p.tasks;
    }
  }

  /** With duplicates the display and the list stop being equal sequences:
      clicking the second "a" of [a, b, a] removes the first "a" task. */
  lemma RemoveDuplicateDiverges()
    ensures var p := Page(["a", "b", "a"], ["a", "b", "a"], ["a", "b", "a"], "");
      var q := AfterRemove(p, 2);
      p.Synced() && q.Synced() && q.display == ["a", "b"] && q.tasks == ["b", "a"]
      && q.display != q.tasks
  {
    var p := Page(["a", "b", "a"], ["a", "b", "a"], ["a", "b", "a"], "");
    RemoveKeepsInvariants(p, 2);
  }

  // -------------------------------------------------------------- loadTasks

  /** The entries addTask renders for one raw text: none if it is rejected,
      otherwise the trimmed text. */
  function RenderOne(raw: string): seq<string> {
    match Normalize(raw)
    case Rejected => []
    case Ok(t) => [t]
  }

  /** The entries rendered, in order, when addTask(item, false) is called on
      each of the first n items in turn. */
  function Rendered(items: seq<string>, n: nat): (r: seq<string>)
    requires n <= |items|
    ensures |r| <= n
  {
    if n == 0 then [] else Rendered(items, n - 1) + RenderOne(items[n - 1])
  }

  /** A proper task renders as itself. */
  lemma RenderOneOfTask(t: string)
    requires IsTask(t)
    ensures RenderOne(t) == [t]
  {
    TrimFixesExactlyTrimmed(t);
  }

  /** The prefix of length n is the shorter one plus its last element. */
  lemma PrefixGrows(items: seq<string>, n: nat)
    requires 0 < n <= |items|
    ensures items[..n] == items[..n - 1] + [items[n - 1]]
  {
  }

  /** A list of proper tasks renders as itself. */
  lemma {:induction false} RenderedOfTasks(items: seq<string>, n: nat)
    requires n <= |items| && AllTasks(items)
    ensures Rendered(items, n) == items[..n]
  {
    if n > 0 {
      RenderOneOfTask(items[n - 1]);
      RenderedOfTasks(items, n - 1);
      PrefixGrows(items, n);
    }
  }

  /** Rendering drops exactly the items that are all white space. */
  lemma {:induction false} RenderedDropsBlank(items: seq<string>, n: nat)
    requires n <= |items|
    ensures |Rendered(items, n)| == n <==> forall k :: 0 <= k < n ==> !AllWhitespace(items[k])
  {
    if n > 0 {
      RenderedDropsBlank(items, n - 1);
    }
  }

  /** How many of the first n items addTask rejects. */
  function Blanks(items: seq<string>, n: nat): nat
    requires n <= |items|
  {
    if n == 0 then 0 else Blanks(items, n - 1) + (if Normalize(items[n - 1]).Rejected? then 1 else 0)
  }

  /** Every item either renders one entry or is a blank. */
  lemma {:induction false} BlanksAreNotRendered(items: seq<string>, n: nat)
    requires n <= |items|
    ensures Blanks(items, n) + |Rendered(items, n)| == n
  {
    if n > 0 {
      BlanksAreNotRendered(items, n - 1);
    }
  }

  /** No notification is raised exactly when no item is all white space. */
  lemma {:induction false} NoBlanksExactly(items: seq<string>, n: nat)
    requires n <= |items|
    ensures Blanks(items, n) == 0 <==> forall k :: 0 <= k < n ==> !AllWhitespace(items[k])
  {
    if n > 0 {
      NoBlanksExactly(items, n - 1);
    }
  }

  /** The page after the forEach of loadTasks has called addTask(item, false)
      on each of the first n items. */
  function RenderEach(p: Page, items: seq<string>, n: nat): Page
    requires n <= |items|
  {
    if n == 0 then p else Added(RenderEach(p, items, n - 1), Some(items[n - 1]), false)
  }

  /** Unfolds RenderEach and Blanks by one item, for the loop of Load. */
  lemma RenderEachStep(p: Page, items: seq<string>, k: nat)
    requires k < |items|
    ensures var before := RenderEach(p, items, k);
      RenderEach(p, items, k + 1) == Added(before, Some(items[k]), false)
      && Blanks(items, k + 1) == Blanks(items, k) + (if AddOutcome(before, Some(items[k])).Rejected? then 1 else 0)
  {
  }

  /** Unfolds Added at save = false in terms of RenderOne, for the
      induction of RenderEachEffect. */
  lemma AddWithoutSave(p: Page, raw: string)
    ensures var shown := RenderOne(raw);
      Added(p, Some(raw), false)
        == p.(display := p.display + shown, input := if shown == [] then p.input else "")
  {
  }

  /** The forEach renders the items and touches neither list; the input
      field is cleared as soon as one item is rendered. */
  lemma {:induction false} RenderEachEffect(p: Page, items: seq<string>, n: nat)
    requires n <= |items|
    ensures var q := RenderEach(p, items, n);
      q.tasks == p.tasks && q.stored == p.stored
      && q.display == p.display + Rendered(items, n)
      && q.input == if Rendered(items, n) == [] then p.input else ""
  {
    if n > 0 {
      RenderEachEffect(p, items, n - 1);
      AddWithoutSave(RenderEach(p, items, n - 1), items[n - 1]);
      var shown, last := Rendered(items, n - 1), RenderOne(items[n - 1]);
      assert p.display + shown + last == p.display + Rendered(items, n);
    }
  }

  /** The page after loadTasks: the snapshot becomes the list, then each
      stored item is rendered without saving. */
  function Loaded(p: Page): Page {
    RenderEach(p.(tasks := p.stored), p.stored, |p.stored|)
  }

  /** loadTasks copies the snapshot into the list, never writes the
      snapshot, and renders the stored items after what is shown. */
  lemma LoadEffect(p: Page)
    ensures var q, n := Loaded(p), |p.stored|;
      q.tasks == p.stored && q.stored == p.stored
      && q.display == p.display + Rendered(p.stored, n)
      && q.input == if Rendered(p.stored, n) == [] then p.input else ""
  {
    RenderEachEffect(p.(tasks := p.stored), p.stored, |p.stored|);
  }

  /** Loading twice leaves the snapshot, and the list, as loading once. */
  lemma LoadKeepsSnapshot(p: Page)
    ensures Loaded(Loaded(p)).stored == Loaded(p).stored == p.stored
    ensures Loaded(Loaded(p)).tasks == Loaded(p).tasks
  {
    LoadEffect(p);
    LoadEffect(Loaded(p));
  }

  /** Loading proper tasks onto an empty display shows exactly the stored
      list and leaves the copies in step. */
  lemma LoadSyncs(p: Page)
    requires p.display == [] && AllTasks(p.stored)
    ensures Loaded(p).display == Loaded(p).tasks == p.stored
    ensures Loaded(p).Synced() && Loaded(p).WellFormed()
  {
    LoadEffect(p);
    RenderedOfTasks(p.stored, |p.stored|);
    assert p.stored[..|p.stored|] == p.stored;
  }

  /** A reload shows what the last session saved: a fresh page loading the
      snapshot of a page whose copies were in step displays that page's list,
      in order. */
  lemma ReloadShowsSavedList(p: Page)
    requires p.Synced() && p.WellFormed()
    ensures Loaded(Page([], p.stored, [], "")).display == p.tasks
  {
    LoadSyncs(Page([], p.stored, [], ""));
  }

  /** Every rendered entry is a proper task. */
  lemma {:induction false} RenderedAreTasks(items: seq<string>, n: nat)
    requires n <= |items|
    ensures AllTasks(Rendered(items, n))
  {
    if n > 0 {
      RenderedAreTasks(items, n - 1);
    }
  }

  // ------------------------------------------------------------- sessions

  /** The page after the user has added each of the first n texts in turn
      (addTask(text), which saves). */
  function SaveEach(p: Page, texts: seq<string>, n: nat): Page
    requires n <= |texts|
  {
    if n == 0 then p else Added(SaveEach(p, texts, n - 1), Some(texts[n - 1]), true)
  }

  /** Unfolds Added at save = true in terms of RenderOne, for the
      induction of SaveEachEffect. */
  lemma AddWithSave(p: Page, raw: string)
    ensures var shown := RenderOne(raw);
      Added(p, Some(raw), true)
        == if shown == [] then p else Page(p.tasks + shown, p.tasks + shown, p.display + shown, "")
  {
  }

  /** Saving adds appends the accepted texts, trimmed and in order, to both
      the list and the display, and the snapshot follows the list as soon
      as anything was written. */
  lemma {:induction false} SaveEachEffect(p: Page, texts: seq<string>, n: nat)
    requires n <= |texts|
    ensures var q, shown := SaveEach(p, texts, n), Rendered(texts, n);
      q.tasks == p.tasks + shown && q.display == p.display + shown
      && q.stored == (if shown == [] then p.stored else q.tasks)
  {
    if n > 0 {
      SaveEachEffect(p, texts, n - 1);
      var before, q := SaveEach(p, texts, n - 1), SaveEach(p, texts, n);
      var shown, last := Rendered(texts, n - 1), RenderOne(texts[n - 1]);
      assert Rendered(texts, n) == shown + last;
      assert q == Added(before, Some(texts[n - 1]), true);
      AddWithSave(before, texts[n - 1]);
      SaveStep(p, before, q, shown, last);
    }
  }

  /** The sequence bookkeeping of one step of SaveEachEffect. */
  lemma SaveStep(p: Page, before: Page, after: Page, shown: seq<string>, last: seq<string>)
    requires before.tasks == p.tasks + shown && before.display == p.display + shown
    requires before.stored == (if shown == [] then p.stored else before.tasks)
    requires after == if last == [] then before
      else Page(before.tasks + last, before.tasks + last, before.display + last, "")
    ensures after.tasks == p.tasks + (shown + last) && after.display == p.display + (shown + last)
    ensures after.stored == (if shown + last == [] then p.stored else after.tasks)
  {
    if last == [] {
      assert shown + last == shown;
    } else {
      assert p.tasks + shown + last == p.tasks + (shown + last);
      assert p.display + shown + last == p.display + (shown + last);
    }
  }

  /** Round trip through the snapshot: whatever texts a first session adds
      to an empty store, a reload shows exactly the accepted ones, trimmed,
      in the order they were added, and the snapshot holds each of them
      once. */
  lemma RoundTrip(texts: seq<string>)
    ensures var q := SaveEach(Page([], [], [], ""), texts, |texts|);
      var shown := Rendered(texts, |texts|);
      q.stored == q.tasks == q.display == shown
      && Loaded(Page([], q.stored, [], "")).display == shown
  {
    var q := SaveEach(Page([], [], [], ""), texts, |texts|);
    SaveEachEffect(Page([], [], [], ""), texts, |texts|);
    RenderedAreTasks(texts, |texts|);
    LoadSyncs(Page([], q.stored, [], ""));
  }

  /** Saving a text that is already a proper task appends it unchanged. */
  lemma AddSavesTaskAsIs(p: Page, t: string)
    requires IsTask(t)
    ensures Added(p, Some(t), true) == Page(p.tasks + [t], p.tasks + [t], p.display + [t], "")
  {
    TrimFixesExactlyTrimmed(t);
  }

  /** Adding tasks x and then y to an empty store and removing
      the entry for x leaves only y, on screen and in the snapshot. */
  lemma AddAddRemove(x: string, y: string)
    requires IsTask(x) && IsTask(y)
    ensures var p0 := Page([], [], [], "");
      var p2 := Added(Added(p0, Some(x), true), Some(y), true);
      var p3 := AfterRemove(p2, 0);
      p2.display == [x, y] && p3.stored == [y] && p3.display == [y]
  {
    var p0 := Page([], [], [], "");
    AddSavesTaskAsIs(p0, x);
    var p1 := Added(p0, Some(x), true);
    AddSavesTaskAsIs(p1, y);
    var p2 := Added(p1, Some(y), true);
    assert p2 == Page([x, y], [x, y], [x, y], "");
    RemoveEffect(p2, 0);
    assert p2.display[1..] == [y] && p2.tasks[1..] == [y];
  }

  /** Padding around a task is dropped: "  buy milk  " is stored and shown as
      "buy milk". */
  lemma TrimPaddingExample(p: Page)
    ensures var q := Added(p, Some("  buy milk  "), true);
      q.tasks == p.tasks + ["buy milk"] && q.stored == q.tasks
      && q.display == p.display + ["buy milk"]
  {
    assert "  buy milk  " == "  " + "buy milk" + "  ";
    TrimOfPadded("  ", "buy milk", "  ");
  }

  /** With tasks [a, a], removing the first entry leaves one "a" in the
      list and in the snapshot. */
  lemma RemoveFirstMatchExample()
    ensures var q := AfterRemove(Page(["a", "a"], ["a", "a"], ["a", "a"], ""), 0);
      q.tasks == ["a"] && q.stored == ["a"] && q.display == ["a"]
  {
    var p := Page(["a", "a"], ["a", "a"], ["a", "a"], "");
    assert FirstIndexOf(p.tasks, "a") == 0;
  }

  /** Loading a snapshot whose one item is a task with white space in
      front puts the item in the list as it is but shows it trimmed. */
  lemma LoadPaddedItem(w: string, t: string)
    requires AllWhitespace(w) && IsTask(t)
    ensures var p := Loaded(Page([], [w + t], [], ""));
      p.tasks == [w + t] && p.display == [t]
  {
    var item := w + t;
    assert item == w + t + [];
    TrimOfPadded(w, t, []);
    var p := Page([], [item], [], "");
    LoadEffect(p);
    assert Rendered(p.stored, 1) == RenderOne(item) == [t];
  }

  /** A snapshot item with leading white space, written by something other
      than this page, is loaded into the list as it is but shown trimmed;
      its remove button then finds no equal task, so the item stays in the
      snapshot for good. */
  lemma PaddedSnapshotItemSticks(w: string, t: string)
    requires w != [] && AllWhitespace(w) && IsTask(t)
    ensures var p := Loaded(Page([], [w + t], [], ""));
      p.tasks == [w + t] && p.display == [t]
      && AfterRemove(p, 0) == p.(display := [])
  {
    LoadPaddedItem(w, t);
    var q := Loaded(Page([], [w + t], [], ""));
    assert q.stored == [w + t] by { LoadEffect(Page([], [w + t], [], "")); }
    assert FirstIndexOf(q.tasks, t) == -1 by { assert |w + t| > |t|; }
  }

  // ---------------------------------------------------------------- page

  /** The page's list state, updated in place by the handlers. */
  class TaskStore {
    var tasks: seq<string>
    var stored: seq<string>
    var display: seq<string>
    var input: string

    function View(): Page
      reads this
    {
      Page(tasks, stored, display, input)
    }

    /** A fresh page: nothing in memory or on screen, the snapshot left by an
        earlier session, an empty input field. */
    constructor (snapshot: seq<string>)
      ensures View() == Page([], snapshot, [], "")
    {
      tasks, stored, display, input := [], snapshot, [], "";
    }

    /** saveTasks: overwrite the snapshot with the whole in-memory list. */
    method SaveTasks()
      modifies this`stored
      ensures stored == tasks
    {
      stored := tasks;
    }

    /** addTask(text, save); text None reads the input field. */
    method AddTask(text: Option<string>, save: bool) returns (outcome: Outcome)
      modifies this
      ensures outcome == AddOutcome(old(View()), text)
      ensures View() == Added(old(View()), text, save)
      ensures save && old(View()).Synced() ==> View().Synced()
    {
      ghost var before := View();
      var raw := if text.None? then input else text.value;
      var t := Trim(raw);
      if t == [] {
        return Rejected;
      }
      display := display + [t];
      if save {
        tasks := tasks + [t];
        SaveTasks();
      }
      input := "";
      outcome := Ok(t);
      AddKeepsInvariants(before, text, save);
    }

    /** The click handler of the remove button of display entry i. */
    method Remove(i: nat)
      requires i < |display|
      modifies this
      ensures View() == AfterRemove(old(View()), i)
      ensures old(View()).Synced() ==> View().Synced()
    {
      ghost var before := View();
      var text := display[i];
      display := RemoveAt(display, i);
      var index := FirstIndexOf(tasks, text);
      if index > -1 {
        tasks := RemoveAt(tasks, index);
        SaveTasks();
      }
      assert View() == AfterRemove(before, i);
      RemoveKeepsInvariants(before, i);
    }

    /** loadTasks: take the snapshot as the list, then addTask(item, false)
        on each stored item. Returns how many items were rejected, each
        raising the notification. */
    method Load() returns (alerts: nat)
      modifies this
      ensures View() == Loaded(old(View()))
      ensures alerts == Blanks(old(stored), |old(stored)|)
      ensures old(display) == [] && AllTasks(old(stored)) ==> View().Synced()
    {
      ghost var before := View();
      var items := stored;
      tasks := items;
      ghost var start := View();
      alerts := 0;
      var k := 0;
      while k < |items|
        invariant 0 <= k <= |items|
        invariant View() == RenderEach(start, items, k)
        invariant alerts == Blanks(items, k)
      {
        RenderEachStep(start, items, k);
        var outcome := AddTask(Some(items[k]), false);
        if outcome.Rejected? {
          alerts := alerts + 1;
        }
        k := k + 1;
      }
      if before.display == [] && AllTasks(before.stored) {
        LoadSyncs(before);
      }
    }
  }
}
