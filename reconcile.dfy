/**
 * The three-way diff SurveyService.SaveSurveyAsync runs between the stored
 * question graph of a survey and the definition the editor posts, once for
 * the questions and once more for the answer options of every question:
 *   - stored rows whose id the definition does not list are removed;
 *   - a definition row whose positive id matches a stored row overwrites it;
 *   - a definition row without an id, or with a non-positive one, is appended;
 *   - a definition row whose positive id matches nothing is skipped.
 *
 * A pass keeps the surviving stored rows (`kept`) apart from the rows it
 * appends (`added`): appended rows carry no key until the commit, so a
 * positive id in the definition can only ever match a stored row. The keys
 * the commit gives the appended rows are drawn from the identity counters,
 * in the order the rows were appended.
 *
 * The passes are written as folds over the definition (the specification)
 * and as loops (the methods at the end of the module), proved equal.
 */
module Reconcile {
  import opened Wrappers
  import opened SurveyData
  import Linq

  /** `Id.HasValue && Id.Value > 0`: the definition row names a stored row. */
  predicate RefersToStored(id: Option<int>) {
    id.Some? && id.value > 0
  }

  /** `Where(o => o.Id.HasValue).Select(o => o.Id.Value)`: the listed ids, non-positive ones included. */
  function ListedOptionIds(defs: seq<OptionDefinition>): set<int> {
    set i | 0 <= i < |defs| && defs[i].id.Some? :: defs[i].id.value
  }

  function ListedQuestionIds(defs: seq<QuestionDefinition>): set<int> {
    set i | 0 <= i < |defs| && defs[i].id.Some? :: defs[i].id.value
  }

  /** The stored options that survive the RemoveRange: those whose id is listed. */
  function KeptOptions(stored: seq<AnswerOption>, listed: set<int>): seq<AnswerOption> {
    Linq.Filter(stored, (o: AnswerOption) => o.id in listed)
  }

  function KeptQuestions(stored: seq<Question>, listed: set<int>): seq<Question> {
    Linq.Filter(stored, (q: Question) => q.id in listed)
  }

  function IndexOfOption(options: seq<AnswerOption>, id: int): nat {
    Linq.FirstIndex(options, (o: AnswerOption) => o.id == id)
  }

  function IndexOfQuestion(questions: seq<Question>, id: int): nat {
    Linq.FirstIndex(questions, (q: Question) => q.id == id)
  }

  predicate OptionIdsDistinct(options: seq<AnswerOption>) {
    forall i, j :: 0 <= i < j < |options| ==> options[i].id != options[j].id
  }

  predicate QuestionIdsDistinct(questions: seq<Question>) {
    forall i, j :: 0 <= i < j < |questions| ==> questions[i].id != questions[j].id
  }

  lemma {:induction false} KeptOptionsDistinct(stored: seq<AnswerOption>, listed: set<int>)
    requires OptionIdsDistinct(stored)
    ensures OptionIdsDistinct(KeptOptions(stored, listed))
  {
    if stored != [] {
      KeptOptionsDistinct(stored[1..], listed);
      var rest := KeptOptions(stored[1..], listed);
      forall i | 0 <= i < |rest| ensures rest[i].id != stored[0].id {
        var j :| 0 <= j < |stored[1..]| && stored[1..][j] == rest[i];
        assert stored[j + 1] == rest[i];
      }
    }
  }

  lemma {:induction false} KeptQuestionsDistinct(stored: seq<Question>, listed: set<int>)
    requires QuestionIdsDistinct(stored)
    ensures QuestionIdsDistinct(KeptQuestions(stored, listed))
  {
    if stored != [] {
      KeptQuestionsDistinct(stored[1..], listed);
      var rest := KeptQuestions(stored[1..], listed);
      forall i | 0 <= i < |rest| ensures rest[i].id != stored[0].id {
        var j :| 0 <= j < |stored[1..]| && stored[1..][j] == rest[i];
        assert stored[j + 1] == rest[i];
      }
    }
  }

  // ---------------------------------------------------------------------
  // Answer options
  // ---------------------------------------------------------------------

  datatype OptionPass = OptionPass(kept: seq<AnswerOption>, added: seq<AnswerOption>, nextId: int)

  /** One iteration of the option loop. */
  function OptionStep(p: OptionPass, d: OptionDefinition): OptionPass {
    if RefersToStored(d.id) then
      var k := IndexOfOption(p.kept, d.id.value);
      if k == |p.kept| then p
      else p.(kept := p.kept[k := p.kept[k].(text := d.text, order := d.order)])
    else
      p.(added := p.added + [AnswerOption(p.nextId, d.text, d.order, false)], nextId := p.nextId + 1)
  }

  /** The option loop over `defs`, as a fold. Stored rows keep their id and IsOther flag;
      appended rows take consecutive ids from the counter. */
  function OptionsAfter(p: OptionPass, defs: seq<OptionDefinition>): (r: OptionPass)
    ensures |r.kept| == |p.kept|
    ensures p.nextId <= r.nextId
    decreases |defs|
  {
    if defs == [] then p
    else OptionStep(OptionsAfter(p, defs[..|defs| - 1]), defs[|defs| - 1])
  }

  /** Stored rows keep their id and IsOther flag; appended rows take consecutive ids from the counter. */
  lemma {:induction false} OptionsAfterShape(p: OptionPass, defs: seq<OptionDefinition>)
    ensures forall i :: 0 <= i < |p.kept| ==>
      OptionsAfter(p, defs).kept[i].id == p.kept[i].id && OptionsAfter(p, defs).kept[i].isOther == p.kept[i].isOther
    ensures |p.added| <= |OptionsAfter(p, defs).added| && OptionsAfter(p, defs).added[..|p.added|] == p.added
    ensures OptionsAfter(p, defs).nextId == p.nextId + (|OptionsAfter(p, defs).added| - |p.added|)
    ensures forall i :: |p.added| <= i < |OptionsAfter(p, defs).added| ==>
      OptionsAfter(p, defs).added[i].id == p.nextId + (i - |p.added|) && !OptionsAfter(p, defs).added[i].isOther
    decreases |defs|
  {
    if defs != [] {
      var front := defs[..|defs| - 1];
      OptionsAfterShape(p, front);
      var q := OptionsAfter(p, front);
      var r := OptionStep(q, defs[|defs| - 1]);
      assert OptionsAfter(p, defs) == r;
      if !RefersToStored(defs[|defs| - 1].id) {
        assert r.added[..|q.added|] == q.added;
        assert r.added[..|p.added|] == q.added[..|p.added|];
      }
    }
  }

  datatype Reconciled<T> = Reconciled(items: seq<T>, nextId: int)

  /**
   * The options of a question after the save: `defs == None` (a null Options
   * list) removes every stored option; otherwise unlisted options go, the
   * listed ones are overwritten and the new ones appended.
   */
  function ReconcileOptions(stored: seq<AnswerOption>, defs: Option<seq<OptionDefinition>>, nextId: int): (r: Reconciled<AnswerOption>)
    ensures defs.None? ==> r.items == [] && r.nextId == nextId
    ensures nextId <= r.nextId
  {
    match defs
    case None => Reconciled([], nextId)
    case Some(ds) =>
      var p := OptionsAfter(OptionPass(KeptOptions(stored, ListedOptionIds(ds)), [], nextId), ds);
      Reconciled(p.kept + p.added, p.nextId)
  }

  // A closed form of the option pass, independent of the loop.

  /** The last definition row naming stored row `id`, if any: the one whose values stick.
      `rowId` reads a row's posted id; the option and the question passes share this lookup. */
  function LastRowNaming<D>(defs: seq<D>, rowId: D -> Option<int>, id: int): (r: Option<D>)
    ensures r.Some? ==> r.value in defs && rowId(r.value) == Some(id) && id > 0
    decreases |defs|
  {
    if defs == [] then None
    else if RefersToStored(rowId(defs[|defs| - 1])) && rowId(defs[|defs| - 1]).value == id then Some(defs[|defs| - 1])
    else LastRowNaming(defs[..|defs| - 1], rowId, id)
  }

  function OptionRowId(d: OptionDefinition): Option<int> { d.id }

  function QuestionRowId(d: QuestionDefinition): Option<int> { d.id }

  /** The options appended for the rows without a stored id, numbered from `nextId`. */
  function NewOptions(defs: seq<OptionDefinition>, nextId: int): (r: seq<AnswerOption>)
    ensures |r| <= |defs|
    ensures forall i :: 0 <= i < |r| ==> r[i].id == nextId + i && !r[i].isOther
    decreases |defs|
  {
    if defs == [] then []
    else
      var prev := NewOptions(defs[..|defs| - 1], nextId);
      var d := defs[|defs| - 1];
      if RefersToStored(d.id) then prev else prev + [AnswerOption(nextId + |prev|, d.text, d.order, false)]
  }

  function ReviseOption(o: AnswerOption, d: Option<OptionDefinition>): AnswerOption {
    match d
    case None => o
    case Some(d) => o.(text := d.text, order := d.order)
  }

  function ReviseOptions(kept: seq<AnswerOption>, defs: seq<OptionDefinition>): (r: seq<AnswerOption>)
    ensures |r| == |kept|
    ensures forall i :: 0 <= i < |kept| ==> r[i] == ReviseOption(kept[i], LastRowNaming(defs, OptionRowId, kept[i].id))
  {
    seq(|kept|, i requires 0 <= i < |kept| => ReviseOption(kept[i], LastRowNaming(defs, OptionRowId, kept[i].id)))
  }

  /** The option fold equals the closed form: every kept option takes the text and
      order of the last row naming it, and one new option follows per row without a stored id. */
  lemma {:induction false} OptionsAfterClosedForm(kept: seq<AnswerOption>, defs: seq<OptionDefinition>, nextId: int)
    requires OptionIdsDistinct(kept)
    ensures OptionsAfter(OptionPass(kept, [], nextId), defs)
         == OptionPass(ReviseOptions(kept, defs), NewOptions(defs, nextId), nextId + |NewOptions(defs, nextId)|)
  {
    if defs != [] {
      var front := defs[..|defs| - 1];
      var d := defs[|defs| - 1];
      OptionsAfterClosedForm(kept, front, nextId);
      OptionsAfterShape(OptionPass(kept, [], nextId), front);
      var p := OptionsAfter(OptionPass(kept, [], nextId), front);
      var r := OptionStep(p, d);
      assert r == OptionsAfter(OptionPass(kept, [], nextId), defs);
      forall i | 0 <= i < |kept| ensures r.kept[i] == ReviseOptions(kept, defs)[i] {
        if RefersToStored(d.id) && d.id.value == kept[i].id {
          var k := IndexOfOption(p.kept, d.id.value);
          assert p.kept[i].id == kept[i].id;
          assert k == i;
        }
      }
    }
  }

  /** Every option the pass returns is a listed stored option (revised) or a new one. */
  lemma ReconcileOptionsClosedForm(stored: seq<AnswerOption>, ds: seq<OptionDefinition>, nextId: int)
    requires OptionIdsDistinct(stored)
    ensures var kept := KeptOptions(stored, ListedOptionIds(ds));
      ReconcileOptions(stored, Some(ds), nextId)
        == Reconciled(ReviseOptions(kept, ds) + NewOptions(ds, nextId), nextId + |NewOptions(ds, nextId)|)
  {
    KeptOptionsDistinct(stored, ListedOptionIds(ds));
    OptionsAfterClosedForm(KeptOptions(stored, ListedOptionIds(ds)), ds, nextId);
  }

  /** The options that survive a save: the listed stored ones, revised, and nothing else that is older than the save. */
  lemma ReconcileOptionsSurvivors(stored: seq<AnswerOption>, ds: seq<OptionDefinition>, nextId: int)
    requires OptionsValid(stored, nextId)
    ensures var r := ReconcileOptions(stored, Some(ds), nextId);
      && (forall i, j :: 0 <= i < |stored| && stored[i].id !in ListedOptionIds(ds) && 0 <= j < |r.items| ==> r.items[j].id != stored[i].id)
      && (forall i :: 0 <= i < |stored| && stored[i].id in ListedOptionIds(ds) ==> ReviseOption(stored[i], LastRowNaming(ds, OptionRowId, stored[i].id)) in r.items)
  {
    ReconciledIdsListedOrNew(stored, ds, nextId);
    ReconciledKeepsListed(stored, ds, nextId);
  }

  /** After the pass every option id was listed by the rows or is freshly issued. */
  lemma ReconciledIdsListedOrNew(stored: seq<AnswerOption>, ds: seq<OptionDefinition>, nextId: int)
    requires OptionIdsDistinct(stored)
    ensures var r := ReconcileOptions(stored, Some(ds), nextId);
      forall j :: 0 <= j < |r.items| ==> r.items[j].id in ListedOptionIds(ds) || r.items[j].id >= nextId
  {
    var kept := KeptOptions(stored, ListedOptionIds(ds));
    ReconcileOptionsClosedForm(stored, ds, nextId);
    var r := ReconcileOptions(stored, Some(ds), nextId);
    var revised := ReviseOptions(kept, ds);
    var appended := NewOptions(ds, nextId);
    forall j | 0 <= j < |r.items| ensures r.items[j].id in ListedOptionIds(ds) || r.items[j].id >= nextId {
      if j < |revised| {
        assert r.items[j].id == kept[j].id;
      } else {
        assert r.items[j] == appended[j - |revised|];
      }
    }
  }

  /** Every listed stored option survives the pass, revised by the last row naming it. */
  lemma ReconciledKeepsListed(stored: seq<AnswerOption>, ds: seq<OptionDefinition>, nextId: int)
    requires OptionIdsDistinct(stored)
    ensures var r := ReconcileOptions(stored, Some(ds), nextId);
      forall i :: 0 <= i < |stored| && stored[i].id in ListedOptionIds(ds) ==> ReviseOption(stored[i], LastRowNaming(ds, OptionRowId, stored[i].id)) in r.items
  {
    var listed := ListedOptionIds(ds);
    var kept := KeptOptions(stored, listed);
    ReconcileOptionsClosedForm(stored, ds, nextId);
    var r := ReconcileOptions(stored, Some(ds), nextId);
    var revised := ReviseOptions(kept, ds);
    forall i | 0 <= i < |stored| && stored[i].id in listed ensures ReviseOption(stored[i], LastRowNaming(ds, OptionRowId, stored[i].id)) in r.items {
      assert stored[i] in kept;
      var k :| 0 <= k < |kept| && kept[k] == stored[i];
      assert r.items[k] == revised[k];
    }
  }

  /** A stored-looking row whose id names no stored option changes nothing, wherever it stands. */
  lemma {:induction false} OptionsAfterSkips(p: OptionPass, a: seq<OptionDefinition>, d: OptionDefinition, b: seq<OptionDefinition>)
    requires RefersToStored(d.id)
    requires forall i :: 0 <= i < |p.kept| ==> p.kept[i].id != d.id.value
    ensures OptionsAfter(p, a + [d] + b) == OptionsAfter(p, a + b)
    decreases |b|
  {
    if b == [] {
      assert (a + [d] + b)[..|a + [d] + b| - 1] == a;
      assert a + b == a;
      var q := OptionsAfter(p, a);
      OptionsAfterShape(p, a);
      assert IndexOfOption(q.kept, d.id.value) == |q.kept|;
    } else {
      var b' := b[..|b| - 1];
      OptionsAfterSkips(p, a, d, b');
      assert (a + [d] + b)[..|a + [d] + b| - 1] == a + [d] + b';
      assert (a + b)[..|a + b| - 1] == a + b';
    }
  }

  lemma ListedOptionIdsSplit(a: seq<OptionDefinition>, d: OptionDefinition, b: seq<OptionDefinition>)
    requires d.id.Some?
    ensures ListedOptionIds(a + [d] + b) == ListedOptionIds(a + b) + {d.id.value}
  {
    var x := a + [d] + b;
    var y := a + b;
    forall v | v in ListedOptionIds(x) ensures v in ListedOptionIds(y) + {d.id.value} {
      var i :| 0 <= i < |x| && x[i].id.Some? && x[i].id.value == v;
      if i < |a| {
        assert y[i] == x[i];
      } else if i > |a| {
        assert y[i - 1] == x[i];
      }
    }
    forall v | v in ListedOptionIds(y) + {d.id.value} ensures v in ListedOptionIds(x) {
      if v != d.id.value || v !in ListedOptionIds(y) {
        if v == d.id.value {
          assert x[|a|] == d;
        } else {
          var i :| 0 <= i < |y| && y[i].id.Some? && y[i].id.value == v;
          if i < |a| {
            assert x[i] == y[i];
          } else {
            assert x[i + 1] == y[i];
          }
        }
      } else {
        assert x[|a|] == d;
      }
    }
  }

  /** An option row whose positive id matches no stored option of the question is skipped:
      the save comes out exactly as if the row were not there. */
  lemma UnmatchedOptionSkipped(stored: seq<AnswerOption>, a: seq<OptionDefinition>, d: OptionDefinition, b: seq<OptionDefinition>, nextId: int)
    requires RefersToStored(d.id)
    requires forall i :: 0 <= i < |stored| ==> stored[i].id != d.id.value
    ensures ReconcileOptions(stored, Some(a + [d] + b), nextId) == ReconcileOptions(stored, Some(a + b), nextId)
  {
    ListedOptionIdsSplit(a, d, b);
    var lx := ListedOptionIds(a + [d] + b);
    var ly := ListedOptionIds(a + b);
    Linq.FilterAgree(stored, (o: AnswerOption) => o.id in lx, (o: AnswerOption) => o.id in ly);
    var kept := KeptOptions(stored, ly);
    assert KeptOptions(stored, lx) == kept;
    forall i | 0 <= i < |kept| ensures kept[i].id != d.id.value {
      assert kept[i] in stored;
    }
    OptionsAfterSkips(OptionPass(kept, [], nextId), a, d, b);
  }

  /** The options of a new question: every row with a stored-looking id is skipped
      (a new question has no stored options), every other row is appended in order. */
  function NewOptionDefs(ds: seq<OptionDefinition>): seq<OptionDefinition> {
    Linq.Filter(ds, IsNewOptionRow)
  }

  predicate IsNewOptionRow(d: OptionDefinition) {
    !RefersToStored(d.id)
  }

  /** The appended options carry, in order, the text and order of the rows without a stored id. */
  lemma {:induction false} NewOptionsCarry(ds: seq<OptionDefinition>, nextId: int)
    ensures var r := NewOptions(ds, nextId); var nd := NewOptionDefs(ds);
      |r| == |nd| && forall i :: 0 <= i < |r| ==> r[i] == AnswerOption(nextId + i, nd[i].text, nd[i].order, false)
    decreases |ds|
  {
    if ds != [] {
      var front := ds[..|ds| - 1];
      var d := ds[|ds| - 1];
      NewOptionsCarry(front, nextId);
      assert ds == front + [d];
      Linq.FilterAppend(front, [d], IsNewOptionRow);
      assert NewOptionDefs(ds) == NewOptionDefs(front) + (if IsNewOptionRow(d) then [d] else []);
    }
  }

  /** The rows that describe a question's stored options exactly, as the editor posts them back unchanged. */
  function DescribeOptions(options: seq<AnswerOption>): (r: seq<OptionDefinition>)
    ensures |r| == |options|
    ensures forall i :: 0 <= i < |options| ==> r[i] == OptionDefinition(Some(options[i].id), options[i].text, options[i].order)
  {
    seq(|options|, i requires 0 <= i < |options| => OptionDefinition(Some(options[i].id), options[i].text, options[i].order))
  }

  /** The row describing kept option `k` rewrites it with its own text and order. */
  lemma OptionStepDescribed(p: OptionPass, k: nat)
    requires k < |p.kept| && p.kept[k].id > 0 && IndexOfOption(p.kept, p.kept[k].id) == k
    ensures OptionStep(p, OptionDefinition(Some(p.kept[k].id), p.kept[k].text, p.kept[k].order)) == p
  {
    var o := p.kept[k];
    assert p.kept[k := o.(text := o.text, order := o.order)] == p.kept;
  }

  lemma {:induction false} OptionsAfterDescribed(stored: seq<AnswerOption>, nextId: int, k: nat)
    requires OptionsValid(stored, nextId) && k <= |stored|
    ensures OptionsAfter(OptionPass(stored, [], nextId), DescribeOptions(stored)[..k]) == OptionPass(stored, [], nextId)
  {
    if k > 0 {
      OptionsAfterDescribed(stored, nextId, k - 1);
      var ds := DescribeOptions(stored);
      assert ds[..k][..k - 1] == ds[..k - 1];
      assert ds[..k][k - 1] == OptionDefinition(Some(stored[k - 1].id), stored[k - 1].text, stored[k - 1].order);
      assert IndexOfOption(stored, stored[k - 1].id) == k - 1;
      OptionStepDescribed(OptionPass(stored, [], nextId), k - 1);
    }
  }

  lemma {:induction false} KeptOptionsAll(stored: seq<AnswerOption>, listed: set<int>)
    requires forall i :: 0 <= i < |stored| ==> stored[i].id in listed
    ensures KeptOptions(stored, listed) == stored
  {
    if stored != [] {
      KeptOptionsAll(stored[1..], listed);
    }
  }

  /** Saving the definition that describes the stored options changes nothing and allocates no id. */
  lemma ReconcileOptionsIdempotent(stored: seq<AnswerOption>, nextId: int)
    requires OptionsValid(stored, nextId)
    ensures ReconcileOptions(stored, Some(DescribeOptions(stored)), nextId) == Reconciled(stored, nextId)
  {
    DescribedKeepsAllOptions(stored);
    OptionsAfterDescribedAll(stored, nextId);
    ReconcileOptionsNoChange(stored, DescribeOptions(stored), nextId);
  }

  /** Rows that keep every stored option and leave the pass where it started change nothing. */
  lemma ReconcileOptionsNoChange(stored: seq<AnswerOption>, ds: seq<OptionDefinition>, nextId: int)
    requires KeptOptions(stored, ListedOptionIds(ds)) == stored
    requires OptionsAfter(OptionPass(stored, [], nextId), ds) == OptionPass(stored, [], nextId)
    ensures ReconcileOptions(stored, Some(ds), nextId) == Reconciled(stored, nextId)
  {
    assert stored + [] == stored;
  }

  lemma OptionsAfterDescribedAll(stored: seq<AnswerOption>, nextId: int)
    requires OptionsValid(stored, nextId)
    ensures OptionsAfter(OptionPass(stored, [], nextId), DescribeOptions(stored)) == OptionPass(stored, [], nextId)
  {
    var ds := DescribeOptions(stored);
    OptionsAfterDescribed(stored, nextId, |stored|);
    assert ds[..|stored|] == ds;
  }

  /** Describing the options lists every stored option, so none of them is removed. */
  lemma DescribedKeepsAllOptions(stored: seq<AnswerOption>)
    ensures KeptOptions(stored, ListedOptionIds(DescribeOptions(stored))) == stored
  {
    var ds := DescribeOptions(stored);
    var listed := ListedOptionIds(ds);
    forall i | 0 <= i < |stored| ensures stored[i].id in listed {
      assert ds[i].id.Some?;
    }
    KeptOptionsAll(stored, listed);
  }

  /** Appending rows numbered from the counter keeps the ids valid under the advanced counter. */
  lemma OptionsValidAppend(options: seq<AnswerOption>, appended: seq<AnswerOption>, nextId: int)
    requires 0 < nextId && OptionsValid(options, nextId)
    requires forall i :: 0 <= i < |appended| ==> appended[i].id == nextId + i
    ensures OptionsValid(options + appended, nextId + |appended|)
  {
    var items := options + appended;
    forall i | 0 <= i < |items| ensures 0 < items[i].id < nextId + |appended| {
      if i >= |options| {
        assert items[i] == appended[i - |options|];
      }
    }
    forall i, j | 0 <= i < j < |items| ensures items[i].id != items[j].id {
      if i >= |options| {
        assert items[i] == appended[i - |options|] && items[j] == appended[j - |options|];
      } else if j >= |options| {
        assert items[j] == appended[j - |options|];
      }
    }
  }

  lemma ReviseOptionsValid(stored: seq<AnswerOption>, ds: seq<OptionDefinition>, nextId: int)
    requires OptionsValid(stored, nextId)
    ensures OptionsValid(ReviseOptions(KeptOptions(stored, ListedOptionIds(ds)), ds), nextId)
  {
    var kept := KeptOptions(stored, ListedOptionIds(ds));
    KeptOptionsDistinct(stored, ListedOptionIds(ds));
    forall i | 0 <= i < |kept| ensures 0 < kept[i].id < nextId {
      assert kept[i] in stored;
    }
  }

  /** The option ids after a save are again positive, distinct and below the advanced counter. */
  lemma ReconcileOptionsValid(stored: seq<AnswerOption>, defs: Option<seq<OptionDefinition>>, nextId: int)
    requires 0 < nextId && OptionsValid(stored, nextId)
    ensures var r := ReconcileOptions(stored, defs, nextId); OptionsValid(r.items, r.nextId)
  {
    if defs.Some? {
      var ds := defs.value;
      ReconcileOptionsClosedForm(stored, ds, nextId);
      ReviseOptionsValid(stored, ds, nextId);
      OptionsValidAppend(ReviseOptions(KeptOptions(stored, ListedOptionIds(ds)), ds), NewOptions(ds, nextId), nextId);
    }
  }

  // ---------------------------------------------------------------------
  // Questions
  // ---------------------------------------------------------------------

  datatype QuestionPass = QuestionPass(kept: seq<Question>, added: seq<Question>, nextQuestionId: int, nextOptionId: int)

  /** The options a new question starts from. A new Question's AnswerOptions is
      null in the source; the model lets it start empty (see the as-written variant below). */
  const NoStoredOptions: seq<AnswerOption> := []

  /** One iteration of the question loop: a matched question takes the row's fields and has
      its options reconciled; an unmatched positive id is skipped; any other row appends a question. */
  function QuestionStep(p: QuestionPass, d: QuestionDefinition): QuestionPass {
    if RefersToStored(d.id) then
      var k := IndexOfQuestion(p.kept, d.id.value);
      if k == |p.kept| then p
      else
        var q := p.kept[k];
        var o := ReconcileOptions(q.options, d.options, p.nextOptionId);
        p.(kept := p.kept[k := Question(q.id, d.text, d.questionType, d.isRequired, d.order, o.items)],
           nextOptionId := o.nextId)
    else
      var o := ReconcileOptions(NoStoredOptions, d.options, p.nextOptionId);
      p.(added := p.added + [Question(p.nextQuestionId, d.text, d.questionType, d.isRequired, d.order, o.items)],
         nextQuestionId := p.nextQuestionId + 1,
         nextOptionId := o.nextId)
  }

  /** The question loop over `defs`, as a fold. Stored questions keep their ids; appended
      questions take consecutive ids; the option counter only grows. */
  function QuestionsAfter(p: QuestionPass, defs: seq<QuestionDefinition>): (r: QuestionPass)
    ensures |r.kept| == |p.kept|
    decreases |defs|
  {
    if defs == [] then p
    else QuestionStep(QuestionsAfter(p, defs[..|defs| - 1]), defs[|defs| - 1])
  }

  /** Stored questions keep their ids; appended questions take consecutive ids; the option counter only grows. */
  lemma {:induction false} QuestionsAfterShape(p: QuestionPass, defs: seq<QuestionDefinition>)
    ensures |QuestionsAfter(p, defs).kept| == |p.kept|
    ensures forall i :: 0 <= i < |p.kept| ==> QuestionsAfter(p, defs).kept[i].id == p.kept[i].id
    ensures |p.added| <= |QuestionsAfter(p, defs).added| && QuestionsAfter(p, defs).added[..|p.added|] == p.added
    ensures QuestionsAfter(p, defs).nextQuestionId == p.nextQuestionId + (|QuestionsAfter(p, defs).added| - |p.added|)
    ensures forall i :: |p.added| <= i < |QuestionsAfter(p, defs).added| ==>
      QuestionsAfter(p, defs).added[i].id == p.nextQuestionId + (i - |p.added|)
    ensures p.nextOptionId <= QuestionsAfter(p, defs).nextOptionId
    decreases |defs|
  {
    if defs != [] {
      var front := defs[..|defs| - 1];
      QuestionsAfterShape(p, front);
      var q := QuestionsAfter(p, front);
      var r := QuestionStep(q, defs[|defs| - 1]);
      assert QuestionsAfter(p, defs) == r;
      if !RefersToStored(defs[|defs| - 1].id) {
        assert r.added[..|q.added|] == q.added;
        assert r.added[..|p.added|] == q.added[..|p.added|];
      }
    }
  }

  datatype SavedGraph = SavedGraph(survey: Survey, nextQuestionId: int, nextOptionId: int)

  /**
   * SaveSurveyAsync after the survey row is found or created: the six scalar
   * fields are overwritten, then the questions are reconciled. Test-mode and
   * theme settings, the creator and the creation date are not touched.
   */
  function ApplyDefinition(s: Survey, def: SurveyDefinition, nextQuestionId: int, nextOptionId: int): SavedGraph
  {
    var kept := KeptQuestions(s.questions, ListedQuestionIds(def.questions));
    var p := QuestionsAfter(QuestionPass(kept, [], nextQuestionId, nextOptionId), def.questions);
    var survey := s.(title := def.title, description := def.description, surveyType := def.surveyType,
                     isAnonymous := def.isAnonymous, endDate := def.endDate, isPublished := def.isPublished,
                     questions := p.kept + p.added);
    SavedGraph(survey, p.nextQuestionId, p.nextOptionId)
  }

  /** The six scalar fields come from the definition; the id, creator, creation date,
      test-mode and theme settings stay; the id counters never go back. */
  lemma ApplyDefinitionFields(s: Survey, def: SurveyDefinition, nextQuestionId: int, nextOptionId: int)
    ensures var r := ApplyDefinition(s, def, nextQuestionId, nextOptionId);
      && r.survey.title == def.title && r.survey.description == def.description
      && r.survey.surveyType == def.surveyType && r.survey.isAnonymous == def.isAnonymous
      && r.survey.endDate == def.endDate && r.survey.isPublished == def.isPublished
      && r.survey.id == s.id && r.survey.creatorId == s.creatorId && r.survey.createdDate == s.createdDate
      && r.survey.testMode == s.testMode && r.survey.theme == s.theme
      && nextQuestionId <= r.nextQuestionId && nextOptionId <= r.nextOptionId
  {
    var kept := KeptQuestions(s.questions, ListedQuestionIds(def.questions));
    QuestionsAfterShape(QuestionPass(kept, [], nextQuestionId, nextOptionId), def.questions);
  }

  // What a save does to the questions, proved about the fold.

  predicate IsNewQuestionRow(d: QuestionDefinition) {
    !RefersToStored(d.id)
  }

  /** The rows that append a question: those without a positive id. */
  function NewQuestionDefs(defs: seq<QuestionDefinition>): seq<QuestionDefinition> {
    Linq.Filter(defs, IsNewQuestionRow)
  }

  /** The question holds the Text, Type, Order and IsRequired of the row. */
  predicate Carries(q: Question, d: QuestionDefinition) {
    q.text == d.text && q.questionType == d.questionType && q.order == d.order && q.isRequired == d.isRequired
  }

  /** The options hold, in order, the text and order of the given rows, with IsOther unset. */
  predicate CarriesOptions(options: seq<AnswerOption>, ds: seq<OptionDefinition>) {
    |options| == |ds| && forall i :: 0 <= i < |ds| ==> options[i].text == ds[i].text && options[i].order == ds[i].order && !options[i].isOther
  }

  /** A new question's options are the rows without a stored-looking id; a null list gives none. */
  lemma NewQuestionOptions(defs: Option<seq<OptionDefinition>>, nextOptionId: int)
    ensures CarriesOptions(ReconcileOptions(NoStoredOptions, defs, nextOptionId).items, NewOptionDefs(defs.GetOr([])))
  {
    if defs.Some? {
      ReconcileOptionsClosedForm(NoStoredOptions, defs.value, nextOptionId);
      NewOptionsCarry(defs.value, nextOptionId);
    }
  }

  /** The question fold in closed form, for the stored questions: a kept question carries the
      Text, Type, Order and IsRequired of the last row naming it, or is untouched, options
      included, when no row names it. */
  lemma {:induction false} QuestionsAfterKept(kept: seq<Question>, defs: seq<QuestionDefinition>, nextQuestionId: int, nextOptionId: int)
    requires QuestionIdsDistinct(kept)
    ensures var r := QuestionsAfter(QuestionPass(kept, [], nextQuestionId, nextOptionId), defs);
      && (forall i :: 0 <= i < |kept| && LastRowNaming(defs, QuestionRowId, kept[i].id).None? ==> r.kept[i] == kept[i])
      && (forall i :: 0 <= i < |kept| && LastRowNaming(defs, QuestionRowId, kept[i].id).Some? ==> Carries(r.kept[i], LastRowNaming(defs, QuestionRowId, kept[i].id).value))
    decreases |defs|
  {
    if defs != [] {
      var front := defs[..|defs| - 1];
      var d := defs[|defs| - 1];
      QuestionsAfterKept(kept, front, nextQuestionId, nextOptionId);
      QuestionsAfterShape(QuestionPass(kept, [], nextQuestionId, nextOptionId), front);
      var p := QuestionsAfter(QuestionPass(kept, [], nextQuestionId, nextOptionId), front);
      var r := QuestionStep(p, d);
      if RefersToStored(d.id) {
        var k := IndexOfQuestion(p.kept, d.id.value);
        forall i | 0 <= i < |kept| && i != k
          ensures r.kept[i] == p.kept[i] && LastRowNaming(defs, QuestionRowId, kept[i].id) == LastRowNaming(front, QuestionRowId, kept[i].id)
        {
          assert p.kept[i].id == kept[i].id;
          if k < |p.kept| {
            assert p.kept[k].id == kept[k].id;
          }
        }
        if k < |p.kept| {
          assert p.kept[k].id == kept[k].id;
          assert LastRowNaming(defs, QuestionRowId, kept[k].id) == Some(d);
        }
      } else {
        forall i | 0 <= i < |kept| ensures LastRowNaming(defs, QuestionRowId, kept[i].id) == LastRowNaming(front, QuestionRowId, kept[i].id) {
        }
      }
    }
  }

  /** How many rows name stored row `id`. */
  function RowsNaming(defs: seq<QuestionDefinition>, id: int): nat
    decreases |defs|
  {
    if defs == [] then 0
    else RowsNaming(defs[..|defs| - 1], id) + (if RefersToStored(defs[|defs| - 1].id) && defs[|defs| - 1].id.value == id then 1 else 0)
  }

  lemma {:induction false} NoRowNaming(defs: seq<QuestionDefinition>, id: int)
    ensures RowsNaming(defs, id) == 0 <==> LastRowNaming(defs, QuestionRowId, id).None?
    decreases |defs|
  {
    if defs != [] {
      NoRowNaming(defs[..|defs| - 1], id);
    }
  }

  /**
   * The options one option list makes of `stored`, stated without the counter: none for a
   * null list; otherwise the listed stored options revised by the last row naming each,
   * then one fresh option (id at least `firstFresh`) per row without a stored id.
   */
  predicate ReconciledFrom(options: seq<AnswerOption>, stored: seq<AnswerOption>, defs: Option<seq<OptionDefinition>>, firstFresh: int) {
    match defs
    case None => options == []
    case Some(ds) =>
      var revised := ReviseOptions(KeptOptions(stored, ListedOptionIds(ds)), ds);
      && |revised| <= |options|
      && options[..|revised|] == revised
      && CarriesOptions(options[|revised|..], NewOptionDefs(ds))
      && forall j :: |revised| <= j < |options| ==> options[j].id >= firstFresh
  }

  lemma ReconcileOptionsFrom(stored: seq<AnswerOption>, defs: Option<seq<OptionDefinition>>, nextId: int, firstFresh: int)
    requires OptionIdsDistinct(stored) && firstFresh <= nextId
    ensures ReconciledFrom(ReconcileOptions(stored, defs, nextId).items, stored, defs, firstFresh)
  {
    if defs.Some? {
      var ds := defs.value;
      ReconcileOptionsClosedForm(stored, ds, nextId);
      NewOptionsCarry(ds, nextId);
      var revised := ReviseOptions(KeptOptions(stored, ListedOptionIds(ds)), ds);
      var items := ReconcileOptions(stored, defs, nextId).items;
      assert items[..|revised|] == revised;
      assert items[|revised|..] == NewOptions(ds, nextId);
    }
  }

  /** A stored question that exactly one row names has its options reconciled once, by that row's
      option list: the listed stored options revised, then the row's new options. */
  lemma {:induction false} QuestionsAfterKeptOptions(kept: seq<Question>, defs: seq<QuestionDefinition>, nextQuestionId: int, nextOptionId: int)
    requires QuestionIdsDistinct(kept)
    requires forall i :: 0 <= i < |kept| ==> OptionIdsDistinct(kept[i].options)
    ensures var r := QuestionsAfter(QuestionPass(kept, [], nextQuestionId, nextOptionId), defs);
      forall i :: 0 <= i < |kept| && RowsNaming(defs, kept[i].id) == 1 ==>
        && LastRowNaming(defs, QuestionRowId, kept[i].id).Some?
        && ReconciledFrom(r.kept[i].options, kept[i].options, LastRowNaming(defs, QuestionRowId, kept[i].id).value.options, nextOptionId)
    decreases |defs|
  {
    if defs != [] {
      var front := defs[..|defs| - 1];
      var d := defs[|defs| - 1];
      var start := QuestionPass(kept, [], nextQuestionId, nextOptionId);
      QuestionsAfterKeptOptions(kept, front, nextQuestionId, nextOptionId);
      QuestionsAfterKept(kept, front, nextQuestionId, nextOptionId);
      QuestionsAfterShape(start, front);
      var p := QuestionsAfter(start, front);
      var r := QuestionStep(p, d);
      assert QuestionsAfter(start, defs) == r;
      forall i | 0 <= i < |kept| && RowsNaming(defs, kept[i].id) == 1
        ensures LastRowNaming(defs, QuestionRowId, kept[i].id).Some?
        ensures ReconciledFrom(r.kept[i].options, kept[i].options, LastRowNaming(defs, QuestionRowId, kept[i].id).value.options, nextOptionId)
      {
        var id := kept[i].id;
        assert p.kept[i].id == id;
        if RefersToStored(d.id) && d.id.value == id {
          NoRowNaming(front, id);
          assert p.kept[i] == kept[i];
          var k := IndexOfQuestion(p.kept, id);
          assert k == i by {
            forall j | 0 <= j < i ensures p.kept[j].id != id {
              assert p.kept[j].id == kept[j].id;
            }
          }
          ReconcileOptionsFrom(kept[i].options, d.options, p.nextOptionId, nextOptionId);
        } else {
          if RefersToStored(d.id) {
            var k := IndexOfQuestion(p.kept, d.id.value);
            if k < |p.kept| {
              assert p.kept[k].id == d.id.value;
              assert k != i;
            }
          }
          assert r.kept[i] == p.kept[i];
        }
      }
    }
  }

  /** One step of the question loop on the appended questions: a row with a positive id appends
      nothing, any other row appends one question carrying it and its new option rows. */
  lemma QuestionStepAdded(p: QuestionPass, d: QuestionDefinition)
    ensures RefersToStored(d.id) ==> QuestionStep(p, d).added == p.added
    ensures !RefersToStored(d.id) ==>
      && |QuestionStep(p, d).added| == |p.added| + 1
      && QuestionStep(p, d).added[..|p.added|] == p.added
      && Carries(QuestionStep(p, d).added[|p.added|], d)
      && CarriesOptions(QuestionStep(p, d).added[|p.added|].options, NewOptionDefs(d.options.GetOr([])))
  {
    if !RefersToStored(d.id) {
      NewQuestionOptions(d.options, p.nextOptionId);
    }
  }

  /** Appended question `j` carries row `j` and the options of that row that have no stored-looking id. */
  predicate AddedCarry(added: seq<Question>, rows: seq<QuestionDefinition>) {
    |added| == |rows|
    && forall j :: 0 <= j < |rows| ==>
      Carries(added[j], rows[j]) && CarriesOptions(added[j].options, NewOptionDefs(rows[j].options.GetOr([])))
  }

  lemma AddedCarrySnoc(added: seq<Question>, rows: seq<QuestionDefinition>, q: Question, d: QuestionDefinition)
    requires AddedCarry(added, rows)
    requires Carries(q, d) && CarriesOptions(q.options, NewOptionDefs(d.options.GetOr([])))
    ensures AddedCarry(added + [q], rows + [d])
  {
    var a := added + [q];
    var r := rows + [d];
    forall j | 0 <= j < |r| ensures Carries(a[j], r[j]) && CarriesOptions(a[j].options, NewOptionDefs(r[j].options.GetOr([]))) {
      if j < |rows| {
        assert a[j] == added[j] && r[j] == rows[j];
      }
    }
  }

  /** The question fold in closed form, for the appended questions: they carry the rows without
      a positive id, in order, each with the options of its row that have no stored-looking id. */
  lemma {:induction false} QuestionsAfterAdded(kept: seq<Question>, defs: seq<QuestionDefinition>, nextQuestionId: int, nextOptionId: int)
    ensures AddedCarry(QuestionsAfter(QuestionPass(kept, [], nextQuestionId, nextOptionId), defs).added, NewQuestionDefs(defs))
    decreases |defs|
  {
    if defs != [] {
      var front := defs[..|defs| - 1];
      var d := defs[|defs| - 1];
      QuestionsAfterAdded(kept, front, nextQuestionId, nextOptionId);
      var p := QuestionsAfter(QuestionPass(kept, [], nextQuestionId, nextOptionId), front);
      AddedCarryStep(p, d, NewQuestionDefs(front));
      assert defs == front + [d];
      Linq.FilterAppend(front, [d], IsNewQuestionRow);
    }
  }

  /** One step keeps AddedCarry, with the row joining the new rows exactly when it appends. */
  lemma AddedCarryStep(p: QuestionPass, d: QuestionDefinition, rows: seq<QuestionDefinition>)
    requires AddedCarry(p.added, rows)
    ensures AddedCarry(QuestionStep(p, d).added, rows + Linq.Filter([d], IsNewQuestionRow))
  {
    QuestionStepAdded(p, d);
    var r := QuestionStep(p, d);
    if RefersToStored(d.id) {
      assert rows + Linq.Filter([d], IsNewQuestionRow) == rows;
    } else {
      assert Linq.Filter([d], IsNewQuestionRow) == [d];
      assert r.added == p.added + [r.added[|p.added|]];
      AddedCarrySnoc(p.added, rows, r.added[|p.added|], d);
    }
  }

  // Well-formedness is preserved.

  /** A pass in progress: kept questions have stored ids below `firstNewId`, appended
      questions are numbered from it, and all options are valid under the option counter. */
  predicate PassValid(p: QuestionPass, firstNewId: int) {
    && 0 < firstNewId && 0 < p.nextOptionId
    && (forall i :: 0 <= i < |p.kept| ==> 0 < p.kept[i].id < firstNewId)
    && QuestionIdsDistinct(p.kept)
    && (forall i :: 0 <= i < |p.added| ==> p.added[i].id == firstNewId + i)
    && p.nextQuestionId == firstNewId + |p.added|
    && (forall i :: 0 <= i < |p.kept| ==> OptionsValid(p.kept[i].options, p.nextOptionId))
    && (forall i :: 0 <= i < |p.added| ==> OptionsValid(p.added[i].options, p.nextOptionId))
  }

  lemma QuestionStepValid(p: QuestionPass, d: QuestionDefinition, firstNewId: int)
    requires PassValid(p, firstNewId)
    ensures PassValid(QuestionStep(p, d), firstNewId)
  {
    if RefersToStored(d.id) {
      var k := IndexOfQuestion(p.kept, d.id.value);
      if k < |p.kept| {
        StoredStepValid(p, d, k, firstNewId);
      }
    } else {
      NewStepValid(p, d, firstNewId);
    }
  }

  /** Every question's options stay valid when the option counter moves forward. */
  lemma AllOptionsValidMonotone(qs: seq<Question>, n: int, m: int)
    requires n <= m && forall i :: 0 <= i < |qs| ==> OptionsValid(qs[i].options, n)
    ensures forall i :: 0 <= i < |qs| ==> OptionsValid(qs[i].options, m)
  {
    forall i | 0 <= i < |qs| ensures OptionsValid(qs[i].options, m) {
      OptionsValidMonotone(qs[i].options, n, m);
    }
  }

  lemma StoredStepValid(p: QuestionPass, d: QuestionDefinition, k: nat, firstNewId: int)
    requires PassValid(p, firstNewId) && RefersToStored(d.id) && k == IndexOfQuestion(p.kept, d.id.value) < |p.kept|
    ensures PassValid(QuestionStep(p, d), firstNewId)
  {
    var q := p.kept[k];
    var o := ReconcileOptions(q.options, d.options, p.nextOptionId);
    ReconcileOptionsValid(q.options, d.options, p.nextOptionId);
    var kept := p.kept[k := Question(q.id, d.text, d.questionType, d.isRequired, d.order, o.items)];
    AllOptionsValidMonotone(p.kept, p.nextOptionId, o.nextId);
    AllOptionsValidMonotone(p.added, p.nextOptionId, o.nextId);
    forall i | 0 <= i < |kept| ensures kept[i].id == p.kept[i].id && OptionsValid(kept[i].options, o.nextId) {
    }
    assert QuestionStep(p, d) == p.(kept := kept, nextOptionId := o.nextId);
  }

  lemma NewStepValid(p: QuestionPass, d: QuestionDefinition, firstNewId: int)
    requires PassValid(p, firstNewId) && !RefersToStored(d.id)
    ensures PassValid(QuestionStep(p, d), firstNewId)
  {
    var o := ReconcileOptions(NoStoredOptions, d.options, p.nextOptionId);
    ReconcileOptionsValid(NoStoredOptions, d.options, p.nextOptionId);
    var added := p.added + [Question(p.nextQuestionId, d.text, d.questionType, d.isRequired, d.order, o.items)];
    AllOptionsValidMonotone(p.kept, p.nextOptionId, o.nextId);
    AllOptionsValidMonotone(p.added, p.nextOptionId, o.nextId);
    forall i | 0 <= i < |added| ensures added[i].id == firstNewId + i && OptionsValid(added[i].options, o.nextId) {
      if i < |p.added| {
        assert added[i] == p.added[i];
      }
    }
    assert QuestionStep(p, d) == p.(added := added, nextQuestionId := p.nextQuestionId + 1, nextOptionId := o.nextId);
  }

  lemma {:induction false} QuestionsAfterValid(p: QuestionPass, defs: seq<QuestionDefinition>, firstNewId: int)
    requires PassValid(p, firstNewId)
    ensures PassValid(QuestionsAfter(p, defs), firstNewId)
    decreases |defs|
  {
    if defs != [] {
      QuestionsAfterValid(p, defs[..|defs| - 1], firstNewId);
      QuestionStepValid(QuestionsAfter(p, defs[..|defs| - 1]), defs[|defs| - 1], firstNewId);
    }
  }

  lemma PassQuestionsValid(p: QuestionPass, firstNewId: int)
    requires PassValid(p, firstNewId)
    ensures QuestionsValid(p.kept + p.added, p.nextQuestionId, p.nextOptionId)
  {
    var qs := p.kept + p.added;
    forall i | 0 <= i < |qs| ensures 0 < qs[i].id < p.nextQuestionId && OptionsValid(qs[i].options, p.nextOptionId) {
      if i >= |p.kept| { assert qs[i] == p.added[i - |p.kept|]; }
    }
    forall i, j | 0 <= i < j < |qs| ensures qs[i].id != qs[j].id {
      if i >= |p.kept| {
        assert qs[i] == p.added[i - |p.kept|] && qs[j] == p.added[j - |p.kept|];
      } else if j >= |p.kept| {
        assert qs[j] == p.added[j - |p.kept|];
      }
    }
  }

  /** A save keeps the graph well formed: question ids and option ids stay positive, distinct
      among siblings and below the counters, which only grow. */
  lemma ApplyDefinitionValid(s: Survey, def: SurveyDefinition, nextQuestionId: int, nextOptionId: int)
    requires 0 < nextQuestionId && 0 < nextOptionId
    requires QuestionsValid(s.questions, nextQuestionId, nextOptionId)
    ensures var r := ApplyDefinition(s, def, nextQuestionId, nextOptionId);
      QuestionsValid(r.survey.questions, r.nextQuestionId, r.nextOptionId)
  {
    var listed := ListedQuestionIds(def.questions);
    var kept := KeptQuestions(s.questions, listed);
    KeptQuestionsDistinct(s.questions, listed);
    forall i | 0 <= i < |kept| ensures 0 < kept[i].id < nextQuestionId && OptionsValid(kept[i].options, nextOptionId) {
      assert kept[i] in s.questions;
    }
    var start := QuestionPass(kept, [], nextQuestionId, nextOptionId);
    QuestionsAfterValid(start, def.questions, nextQuestionId);
    PassQuestionsValid(QuestionsAfter(start, def.questions), nextQuestionId);
  }

  // Deletion, skipping and idempotence at the level of the whole survey.

  /** Every stored question whose id the definition does not list is gone after the save,
      and its options with it. */
  lemma SaveRemovesUnlistedQuestions(s: Survey, def: SurveyDefinition, nextQuestionId: int, nextOptionId: int)
    requires QuestionsValid(s.questions, nextQuestionId, nextOptionId)
    ensures var r := ApplyDefinition(s, def, nextQuestionId, nextOptionId).survey.questions;
      forall i, j :: 0 <= i < |s.questions| && s.questions[i].id !in ListedQuestionIds(def.questions) && 0 <= j < |r|
        ==> r[j].id != s.questions[i].id
  {
    SavedIdsListedOrNew(s, def, nextQuestionId, nextOptionId);
  }

  /** After a save every question id was listed by the definition or is freshly issued. */
  lemma SavedIdsListedOrNew(s: Survey, def: SurveyDefinition, nextQuestionId: int, nextOptionId: int)
    ensures var r := ApplyDefinition(s, def, nextQuestionId, nextOptionId).survey.questions;
      forall j :: 0 <= j < |r| ==> r[j].id in ListedQuestionIds(def.questions) || r[j].id >= nextQuestionId
  {
    var listed := ListedQuestionIds(def.questions);
    var kept := KeptQuestions(s.questions, listed);
    var p := QuestionsAfter(QuestionPass(kept, [], nextQuestionId, nextOptionId), def.questions);
    QuestionsAfterShape(QuestionPass(kept, [], nextQuestionId, nextOptionId), def.questions);
    var r := p.kept + p.added;
    forall j | 0 <= j < |r| ensures r[j].id in listed || r[j].id >= nextQuestionId {
      if j < |p.kept| {
        assert r[j].id == kept[j].id;
      } else {
        assert r[j] == p.added[j - |p.kept|];
      }
    }
  }

  /** The saved questions hold, under the question's own id, one that carries row `d` and whose
      options row `d`'s option list made of `q`'s options. */
  predicate RevisedIn(saved: seq<Question>, q: Question, d: QuestionDefinition, firstFresh: int) {
    exists j :: 0 <= j < |saved| && saved[j].id == q.id && Carries(saved[j], d)
      && ReconciledFrom(saved[j].options, q.options, d.options, firstFresh)
  }

  /** A stored question that exactly one row names is still in the saved survey, with that row's
      Text, Type, Order and IsRequired, and its options reconciled by that row's option list. */
  lemma SaveRevisesNamedQuestion(s: Survey, def: SurveyDefinition, nextQuestionId: int, nextOptionId: int)
    requires QuestionsValid(s.questions, nextQuestionId, nextOptionId)
    ensures var r := ApplyDefinition(s, def, nextQuestionId, nextOptionId).survey.questions;
      forall i :: 0 <= i < |s.questions| && RowsNaming(def.questions, s.questions[i].id) == 1 ==>
        && LastRowNaming(def.questions, QuestionRowId, s.questions[i].id).Some?
        && RevisedIn(r, s.questions[i], LastRowNaming(def.questions, QuestionRowId, s.questions[i].id).value, nextOptionId)
  {
    var listed := ListedQuestionIds(def.questions);
    var kept := KeptQuestions(s.questions, listed);
    KeptQuestionsDistinct(s.questions, listed);
    forall j | 0 <= j < |kept| ensures OptionIdsDistinct(kept[j].options) {
      assert kept[j] in s.questions;
    }
    var p := QuestionsAfter(QuestionPass(kept, [], nextQuestionId, nextOptionId), def.questions);
    SavedQuestions(s, def, nextQuestionId, nextOptionId);
    forall i | 0 <= i < |s.questions| && RowsNaming(def.questions, s.questions[i].id) == 1
      ensures LastRowNaming(def.questions, QuestionRowId, s.questions[i].id).Some?
      ensures RevisedIn(p.kept + p.added, s.questions[i], LastRowNaming(def.questions, QuestionRowId, s.questions[i].id).value, nextOptionId)
    {
      var q := s.questions[i];
      NoRowNaming(def.questions, q.id);
      NamedIsListed(def.questions, LastRowNaming(def.questions, QuestionRowId, q.id).value);
      assert q in kept;
      KeptRevisedIn(kept, def.questions, nextQuestionId, nextOptionId, q);
      RevisedInAppend(p.kept, p.added, q, LastRowNaming(def.questions, QuestionRowId, q.id).value, nextOptionId);
    }
  }

  /** The questions a save stores: the kept ones, as the pass leaves them, then the appended ones. */
  lemma SavedQuestions(s: Survey, def: SurveyDefinition, nextQuestionId: int, nextOptionId: int)
    ensures var kept := KeptQuestions(s.questions, ListedQuestionIds(def.questions));
      var p := QuestionsAfter(QuestionPass(kept, [], nextQuestionId, nextOptionId), def.questions);
      ApplyDefinition(s, def, nextQuestionId, nextOptionId).survey.questions == p.kept + p.added
  {
  }

  lemma RevisedInAppend(a: seq<Question>, b: seq<Question>, q: Question, d: QuestionDefinition, firstFresh: int)
    requires RevisedIn(a, q, d, firstFresh)
    ensures RevisedIn(a + b, q, d, firstFresh)
  {
    var j :| 0 <= j < |a| && a[j].id == q.id && Carries(a[j], d) && ReconciledFrom(a[j].options, q.options, d.options, firstFresh);
    assert (a + b)[j] == a[j];
  }

  /** The fold's form of SaveRevisesNamedQuestion, for one kept question. */
  lemma KeptRevisedIn(kept: seq<Question>, defs: seq<QuestionDefinition>, nextQuestionId: int, nextOptionId: int, q: Question)
    requires QuestionIdsDistinct(kept)
    requires forall i :: 0 <= i < |kept| ==> OptionIdsDistinct(kept[i].options)
    requires q in kept && RowsNaming(defs, q.id) == 1
    ensures LastRowNaming(defs, QuestionRowId, q.id).Some?
    ensures RevisedIn(QuestionsAfter(QuestionPass(kept, [], nextQuestionId, nextOptionId), defs).kept, q,
                      LastRowNaming(defs, QuestionRowId, q.id).value, nextOptionId)
  {
    var start := QuestionPass(kept, [], nextQuestionId, nextOptionId);
    QuestionsAfterShape(start, defs);
    QuestionsAfterKept(kept, defs, nextQuestionId, nextOptionId);
    QuestionsAfterKeptOptions(kept, defs, nextQuestionId, nextOptionId);
    var j :| 0 <= j < |kept| && kept[j] == q;
    assert QuestionsAfter(start, defs).kept[j].id == q.id;
  }

  lemma NamedIsListed(defs: seq<QuestionDefinition>, d: QuestionDefinition)
    requires d in defs && d.id.Some?
    ensures d.id.value in ListedQuestionIds(defs)
  {
    var m :| 0 <= m < |defs| && defs[m] == d;
  }

  lemma {:induction false} QuestionsAfterSkips(p: QuestionPass, a: seq<QuestionDefinition>, d: QuestionDefinition, b: seq<QuestionDefinition>)
    requires RefersToStored(d.id)
    requires forall i :: 0 <= i < |p.kept| ==> p.kept[i].id != d.id.value
    ensures QuestionsAfter(p, a + [d] + b) == QuestionsAfter(p, a + b)
    decreases |b|
  {
    if b == [] {
      assert (a + [d] + b)[..|a + [d] + b| - 1] == a;
      assert a + b == a;
      var q := QuestionsAfter(p, a);
      QuestionsAfterShape(p, a);
      assert IndexOfQuestion(q.kept, d.id.value) == |q.kept|;
    } else {
      var b' := b[..|b| - 1];
      QuestionsAfterSkips(p, a, d, b');
      assert (a + [d] + b)[..|a + [d] + b| - 1] == a + [d] + b';
      assert (a + b)[..|a + b| - 1] == a + b';
    }
  }

  lemma ListedQuestionIdsSplit(a: seq<QuestionDefinition>, d: QuestionDefinition, b: seq<QuestionDefinition>)
    requires d.id.Some?
    ensures ListedQuestionIds(a + [d] + b) == ListedQuestionIds(a + b) + {d.id.value}
  {
    var x := a + [d] + b;
    var y := a + b;
    forall v | v in ListedQuestionIds(x) ensures v in ListedQuestionIds(y) + {d.id.value} {
      var i :| 0 <= i < |x| && x[i].id.Some? && x[i].id.value == v;
      if i < |a| {
        assert y[i] == x[i];
      } else if i > |a| {
        assert y[i - 1] == x[i];
      }
    }
    forall v | v in ListedQuestionIds(y) + {d.id.value} ensures v in ListedQuestionIds(x) {
      if v == d.id.value {
        assert x[|a|] == d;
      } else {
        var i :| 0 <= i < |y| && y[i].id.Some? && y[i].id.value == v;
        if i < |a| {
          assert x[i] == y[i];
        } else {
          assert x[i + 1] == y[i];
        }
      }
    }
  }

  /** A question row whose positive id matches no stored question of the survey is skipped:
      the save comes out exactly as if the row were not there. */
  lemma UnmatchedQuestionSkipped(s: Survey, def: SurveyDefinition, a: seq<QuestionDefinition>, d: QuestionDefinition,
                                 b: seq<QuestionDefinition>, nextQuestionId: int, nextOptionId: int)
    requires RefersToStored(d.id)
    requires forall i :: 0 <= i < |s.questions| ==> s.questions[i].id != d.id.value
    ensures ApplyDefinition(s, def.(questions := a + [d] + b), nextQuestionId, nextOptionId)
         == ApplyDefinition(s, def.(questions := a + b), nextQuestionId, nextOptionId)
  {
    ListedQuestionIdsSplit(a, d, b);
    var lx := ListedQuestionIds(a + [d] + b);
    var ly := ListedQuestionIds(a + b);
    Linq.FilterAgree(s.questions, (q: Question) => q.id in lx, (q: Question) => q.id in ly);
    var kept := KeptQuestions(s.questions, ly);
    assert KeptQuestions(s.questions, lx) == kept;
    forall i | 0 <= i < |kept| ensures kept[i].id != d.id.value {
      assert kept[i] in s.questions;
    }
    QuestionsAfterSkips(QuestionPass(kept, [], nextQuestionId, nextOptionId), a, d, b);
  }

  function DescribeQuestion(q: Question): QuestionDefinition {
    QuestionDefinition(Some(q.id), q.order, q.text, q.questionType, q.isRequired, Some(DescribeOptions(q.options)))
  }

  /** The definition that describes a stored survey exactly, every row carrying its stored id. */
  function DescribeSurvey(s: Survey): (def: SurveyDefinition)
    ensures |def.questions| == |s.questions|
    ensures forall i :: 0 <= i < |s.questions| ==> def.questions[i] == DescribeQuestion(s.questions[i])
  {
    SurveyDefinition(Some(s.id), s.title, s.description, s.surveyType, s.isPublished, s.endDate, s.isAnonymous,
      seq(|s.questions|, i requires 0 <= i < |s.questions| => DescribeQuestion(s.questions[i])))
  }

  lemma {:induction false} KeptQuestionsAll(stored: seq<Question>, listed: set<int>)
    requires forall i :: 0 <= i < |stored| ==> stored[i].id in listed
    ensures KeptQuestions(stored, listed) == stored
  {
    if stored != [] {
      KeptQuestionsAll(stored[1..], listed);
    }
  }

  /** The row describing kept question `k` rewrites it with its own fields and options. */
  lemma QuestionStepDescribed(p: QuestionPass, k: nat)
    requires k < |p.kept| && p.kept[k].id > 0 && IndexOfQuestion(p.kept, p.kept[k].id) == k
    requires OptionsValid(p.kept[k].options, p.nextOptionId)
    ensures QuestionStep(p, DescribeQuestion(p.kept[k])) == p
  {
    var q := p.kept[k];
    ReconcileOptionsIdempotent(q.options, p.nextOptionId);
    assert Question(q.id, q.text, q.questionType, q.isRequired, q.order, q.options) == q;
    assert p.kept[k := q] == p.kept;
  }

  lemma {:induction false} QuestionsAfterDescribed(s: Survey, nextQuestionId: int, nextOptionId: int, k: nat)
    requires QuestionsValid(s.questions, nextQuestionId, nextOptionId) && k <= |s.questions|
    ensures QuestionsAfter(QuestionPass(s.questions, [], nextQuestionId, nextOptionId), DescribeSurvey(s).questions[..k])
         == QuestionPass(s.questions, [], nextQuestionId, nextOptionId)
  {
    if k > 0 {
      QuestionsAfterDescribed(s, nextQuestionId, nextOptionId, k - 1);
      var ds := DescribeSurvey(s).questions;
      assert ds[..k][..k - 1] == ds[..k - 1];
      var q := s.questions[k - 1];
      assert ds[..k][k - 1] == DescribeQuestion(q);
      assert IndexOfQuestion(s.questions, q.id) == k - 1;
      QuestionStepDescribed(QuestionPass(s.questions, [], nextQuestionId, nextOptionId), k - 1);
    }
  }

  /** Describing a survey lists every stored question, so none of them is removed. */
  lemma DescribedKeepsAll(s: Survey)
    ensures KeptQuestions(s.questions, ListedQuestionIds(DescribeSurvey(s).questions)) == s.questions
  {
    var def := DescribeSurvey(s);
    var listed := ListedQuestionIds(def.questions);
    forall i | 0 <= i < |s.questions| ensures s.questions[i].id in listed {
      assert def.questions[i].id.Some?;
    }
    KeptQuestionsAll(s.questions, listed);
  }

  /** Saving the definition that describes a stored survey, every id matching a stored row,
      leaves the survey and the counters unchanged. */
  lemma SaveIdempotent(s: Survey, nextQuestionId: int, nextOptionId: int)
    requires QuestionsValid(s.questions, nextQuestionId, nextOptionId)
    ensures ApplyDefinition(s, DescribeSurvey(s), nextQuestionId, nextOptionId) == SavedGraph(s, nextQuestionId, nextOptionId)
  {
    DescribedKeepsAll(s);
    DescribedQuestionsUnchanged(s, nextQuestionId, nextOptionId);
    ApplyDefinitionNoChange(s, DescribeSurvey(s), nextQuestionId, nextOptionId);
  }

  lemma DescribedQuestionsUnchanged(s: Survey, nextQuestionId: int, nextOptionId: int)
    requires QuestionsValid(s.questions, nextQuestionId, nextOptionId)
    ensures QuestionsAfter(QuestionPass(s.questions, [], nextQuestionId, nextOptionId), DescribeSurvey(s).questions)
         == QuestionPass(s.questions, [], nextQuestionId, nextOptionId)
  {
    QuestionsAfterDescribed(s, nextQuestionId, nextOptionId, |s.questions|);
    assert DescribeSurvey(s).questions[..|s.questions|] == DescribeSurvey(s).questions;
  }

  /** A save whose scalar fields match and whose question pass changes nothing leaves the graph as it was. */
  lemma ApplyDefinitionNoChange(s: Survey, def: SurveyDefinition, nextQuestionId: int, nextOptionId: int)
    requires def.title == s.title && def.description == s.description && def.surveyType == s.surveyType
    requires def.isAnonymous == s.isAnonymous && def.endDate == s.endDate && def.isPublished == s.isPublished
    requires KeptQuestions(s.questions, ListedQuestionIds(def.questions)) == s.questions
    requires QuestionsAfter(QuestionPass(s.questions, [], nextQuestionId, nextOptionId), def.questions)
          == QuestionPass(s.questions, [], nextQuestionId, nextOptionId)
    ensures ApplyDefinition(s, def, nextQuestionId, nextOptionId) == SavedGraph(s, nextQuestionId, nextOptionId)
  {
    assert s.questions + [] == s.questions;
  }

  // ---------------------------------------------------------------------
  // The question pass as written
  // ---------------------------------------------------------------------

  /** The option pass as written: it starts from the question's AnswerOptions collection,
      which is null (None) for a question created in the same save; `.Where` on it throws. */
  function ReconcileOptionsAsWritten(stored: Option<seq<AnswerOption>>, defs: Option<seq<OptionDefinition>>, nextId: int)
    : (r: Result<Reconciled<AnswerOption>, string>)
    ensures r.Failure? <==> stored.None?
  {
    match stored
    case None => Failure("ArgumentNullException")
    case Some(options) => Success(ReconcileOptions(options, defs, nextId))
  }

  /** One iteration of the question loop as written: a new Question is created with
      AnswerOptions == null, and its option pass runs on that null collection. */
  function QuestionStepAsWritten(p: QuestionPass, d: QuestionDefinition): Result<QuestionPass, string> {
    if RefersToStored(d.id) then Success(QuestionStep(p, d))
    else
      match ReconcileOptionsAsWritten(None, d.options, p.nextOptionId)
      case Failure(e) => Failure(e)
      case Success(o) =>
        Success(p.(added := p.added + [Question(p.nextQuestionId, d.text, d.questionType, d.isRequired, d.order, o.items)],
                   nextQuestionId := p.nextQuestionId + 1, nextOptionId := o.nextId))
  }

  function QuestionsAfterAsWritten(p: QuestionPass, defs: seq<QuestionDefinition>): Result<QuestionPass, string>
    decreases |defs|
  {
    if defs == [] then Success(p)
    else
      match QuestionsAfterAsWritten(p, defs[..|defs| - 1])
      case Failure(e) => Failure(e)
      case Success(q) => QuestionStepAsWritten(q, defs[|defs| - 1])
  }

  /** As written, any save whose definition holds a new question (no id, or the editor's
      negative temporary id) throws, and nothing is committed. */
  lemma {:induction false} AsWrittenFailsWithNewQuestion(p: QuestionPass, defs: seq<QuestionDefinition>, i: nat)
    requires i < |defs| && !RefersToStored(defs[i].id)
    ensures QuestionsAfterAsWritten(p, defs).Failure?
    decreases |defs|
  {
    if i < |defs| - 1 {
      AsWrittenFailsWithNewQuestion(p, defs[..|defs| - 1], i);
    }
  }

  /** Without new questions the code as written and the model agree. */
  lemma {:induction false} AsWrittenAgreesWithoutNewQuestions(p: QuestionPass, defs: seq<QuestionDefinition>)
    requires forall i :: 0 <= i < |defs| ==> RefersToStored(defs[i].id)
    ensures QuestionsAfterAsWritten(p, defs) == Success(QuestionsAfter(p, defs))
    decreases |defs|
  {
    if defs != [] {
      AsWrittenAgreesWithoutNewQuestions(p, defs[..|defs| - 1]);
    }
  }

  /** The editor's first save of a new survey with one question (temporary id -1): as written
      it throws; the model appends the question with the next id. */
  lemma NewQuestionCounterexample()
    ensures var d := QuestionDefinition(Some(-1), 1, "Question", ShortText, false, None);
      && QuestionsAfterAsWritten(QuestionPass([], [], 1, 1), [d]).Failure?
      && QuestionsAfter(QuestionPass([], [], 1, 1), [d]).added == [Question(1, "Question", ShortText, false, 1, [])]
  {
    var d := QuestionDefinition(Some(-1), 1, "Question", ShortText, false, None);
    assert [d][..0] == [];
  }
}
