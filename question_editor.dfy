/**
 * The question editor: add and delete categories, pick a category, and edit the
 * text of one of its questions. Every catalog change is a whole new catalog
 * computed from the old one (`setCategories`).
 */
module QuestionEditor {
  import opened Options
  import opened Catalog
  import Text

  /** The point values of a new category's questions, top to bottom. */
  const PointTiers: seq<int> := [100, 200, 300, 400, 500]

  /** `${Date.now()}-${tier}`: the id of a new category's question of the given tier. */
  function TierId(stamp: string, tier: nat): (id: string)
    requires 1 <= tier <= 5
    ensures |id| == |stamp| + 2 && id[..|stamp|] == stamp
    ensures id[|stamp|] == '-' && id[|stamp| + 1] as int == '0' as int + tier
  {
    stamp + "-" + [Text.DigitChar(tier)]
  }

  function BlankQuestion(stamp: string, tier: nat): Question
    requires 1 <= tier <= 5
  {
    Question(TierId(stamp, tier), PointTiers[tier - 1], "", "", false)
  }

  /** The category `addCategory` builds from a trimmed name and the clock reading `now`. */
  function NewCategory(name: string, now: nat): (c: Category)
    ensures c.id == Text.NatToString(now) && c.name == name
    ensures |c.questions| == |PointTiers|
    ensures forall j :: 0 <= j < |c.questions| ==> c.questions[j].id == TierId(c.id, j + 1)
    ensures forall j :: 0 <= j < |c.questions| ==>
              && c.questions[j].points == PointTiers[j]
              && c.questions[j].question == "" && c.questions[j].answer == ""
              && !c.questions[j].isAnswered
  {
    var stamp := Text.NatToString(now);
    Category(stamp, name, [
      BlankQuestion(stamp, 1),
      BlankQuestion(stamp, 2),
      BlankQuestion(stamp, 3),
      BlankQuestion(stamp, 4),
      BlankQuestion(stamp, 5)
    ])
  }

  lemma TierIdsDiffer(stamp: string, a: nat, b: nat)
    requires 1 <= a <= 5 && 1 <= b <= 5 && a != b
    ensures TierId(stamp, a) != TierId(stamp, b)
  {
    assert TierId(stamp, a)[|stamp| + 1] == Text.DigitChar(a);
    assert TierId(stamp, b)[|stamp| + 1] == Text.DigitChar(b);
  }

  /** The five new question ids are pairwise distinct: they differ in their tier suffix. */
  lemma NewQuestionIdsDistinct(name: string, now: nat)
    ensures var qs := NewCategory(name, now).questions;
            forall i, j :: 0 <= i < j < |qs| ==> qs[i].id != qs[j].id
  {
    var stamp := Text.NatToString(now);
    var qs := NewCategory(name, now).questions;
    forall i, j | 0 <= i < j < |qs| ensures qs[i].id != qs[j].id {
      assert qs[i].id == TierId(stamp, i + 1) && qs[j].id == TierId(stamp, j + 1);
      TierIdsDiffer(stamp, i + 1, j + 1);
    }
  }

  /** A new category's id is fixed by the clock alone: different readings, different ids; the same reading, the same id. */
  lemma NewCategoryIdIsTheClock(name: string, name': string, now: nat, now': nat)
    ensures NewCategory(name, now).id == NewCategory(name', now').id <==> now == now'
  {
    if NewCategory(name, now).id == NewCategory(name', now').id {
      Text.NatToStringInjective(now, now');
    }
  }

  /** `addCategory`: a name that is not blank appends one new category at the end, under the trimmed name. */
  function AppendCategory(cats: seq<Category>, name: string, now: nat): (r: seq<Category>)
    ensures Text.AllWhiteSpace(name) ==> r == cats
    ensures !Text.AllWhiteSpace(name) ==>
              && |r| == |cats| + 1 && r[..|cats|] == cats
              && r[|cats|] == NewCategory(Text.Trim(name), now)
  {
    Text.TrimEmptyIff(name);
    var trimmed := Text.Trim(name);
    if trimmed != [] then cats + [NewCategory(trimmed, now)] else cats
  }

  /** Two categories added in the same millisecond share an id: nothing keeps new ids unique in the catalog. */
  lemma SameMillisecondSameId(cats: seq<Category>, a: string, b: string, now: nat)
    requires !Text.AllWhiteSpace(a) && !Text.AllWhiteSpace(b)
    ensures var r := AppendCategory(AppendCategory(cats, a, now), b, now);
            |r| == |cats| + 2 && r[|cats|].id == r[|cats| + 1].id
  {
  }

  /** `categories.filter(c => c.id !== categoryId)` */
  function RemoveCategory(cats: seq<Category>, id: string): (r: seq<Category>)
    ensures |r| <= |cats|
  {
    if cats == [] then []
    else (if cats[0].id == id then [] else [cats[0]]) + RemoveCategory(cats[1..], id)
  }

  /** Deletion keeps exactly the categories whose id differs. */
  lemma {:induction false} RemoveCategoryMembers(cats: seq<Category>, id: string)
    ensures forall c :: c in RemoveCategory(cats, id) <==> c in cats && c.id != id
  {
    if cats != [] {
      RemoveCategoryMembers(cats[1..], id);
      assert cats == [cats[0]] + cats[1..];
    }
  }

  /** Deleting an id that no category has changes nothing. */
  lemma {:induction false} RemoveCategoryMissingId(cats: seq<Category>, id: string)
    requires forall c :: c in cats ==> c.id != id
    ensures RemoveCategory(cats, id) == cats
  {
    if cats != [] {
      assert cats[0] in cats;
      RemoveCategoryMissingId(cats[1..], id);
      assert cats == [cats[0]] + cats[1..];
    }
  }

  lemma RemoveCategoryCons(c: Category, cats: seq<Category>, id: string)
    ensures RemoveCategory([c] + cats, id) == (if c.id == id then [] else [c]) + RemoveCategory(cats, id)
  {
    assert ([c] + cats)[1..] == cats;
  }

  /** Deleting works piece by piece: the kept categories stay in their order. */
  lemma {:induction false} RemoveCategoryAppend(a: seq<Category>, b: seq<Category>, id: string)
    ensures RemoveCategory(a + b, id) == RemoveCategory(a, id) + RemoveCategory(b, id)
  {
    if a == [] {
      assert a + b == b;
    } else {
      var head := if a[0].id == id then [] else [a[0]];
      assert a == [a[0]] + a[1..];
      assert a + b == [a[0]] + (a[1..] + b);
      RemoveCategoryCons(a[0], a[1..] + b, id);
      RemoveCategoryCons(a[0], a[1..], id);
      RemoveCategoryAppend(a[1..], b, id);
      assert head + (RemoveCategory(a[1..], id) + RemoveCategory(b, id))
          == (head + RemoveCategory(a[1..], id)) + RemoveCategory(b, id);
    }
  }

  /** Deleting the same id twice is deleting it once. */
  lemma RemoveCategoryIdempotent(cats: seq<Category>, id: string)
    ensures RemoveCategory(RemoveCategory(cats, id), id) == RemoveCategory(cats, id)
  {
    RemoveCategoryMembers(cats, id);
    RemoveCategoryMissingId(RemoveCategory(cats, id), id);
  }

  /** `Partial<Question>`: the fields an update supplies; the ones it leaves out are None. */
  datatype QuestionPatch = QuestionPatch(
    id: Option<string>,
    points: Option<int>,
    question: Option<string>,
    answer: Option<string>,
    isAnswered: Option<bool>)

  /** `{ ...q, ...updates }` */
  function Apply(q: Question, patch: QuestionPatch): Question
  {
    Question(
      GetOr(patch.id, q.id),
      GetOr(patch.points, q.points),
      GetOr(patch.question, q.question),
      GetOr(patch.answer, q.answer),
      GetOr(patch.isAnswered, q.isAnswered))
  }

  /** The update `saveQuestion` sends: the two texts and nothing else. */
  function TextPatch(question: string, answer: string): QuestionPatch
  {
    QuestionPatch(None, None, Some(question), Some(answer), None)
  }

  function PatchIfMatching(q: Question, qid: string, patch: QuestionPatch): Question
  {
    if q.id == qid then Apply(q, patch) else q
  }

  /**
   * `updateQuestion`: inside every category with the id, every question with the
   * id gets the supplied fields; every other category and question is left as it was.
   */
  function PatchQuestion(cats: seq<Category>, cid: string, qid: string, patch: QuestionPatch): (r: seq<Category>)
    ensures |r| == |cats|
    ensures forall i :: 0 <= i < |cats| ==>
              r[i].id == cats[i].id && r[i].name == cats[i].name && |r[i].questions| == |cats[i].questions|
    ensures forall i :: 0 <= i < |cats| && cats[i].id != cid ==> r[i] == cats[i]
    ensures forall i, j :: 0 <= i < |cats| && 0 <= j < |cats[i].questions| && cats[i].id == cid ==>
              var q := cats[i].questions[j];
              r[i].questions[j] == if q.id == qid then Apply(q, patch) else q
  {
    seq(|cats|, i requires 0 <= i < |cats| =>
      if cats[i].id == cid then
        cats[i].(questions := seq(|cats[i].questions|, j requires 0 <= j < |cats[i].questions| =>
          PatchIfMatching(cats[i].questions[j], qid, patch)))
      else
        cats[i])
  }

  /** An update that addresses no question (missing category, or no such question in it) changes nothing. */
  lemma PatchWithoutTargetIsNoOp(cats: seq<Category>, cid: string, qid: string, patch: QuestionPatch)
    requires forall i, j :: 0 <= i < |cats| && 0 <= j < |cats[i].questions| && cats[i].id == cid
               ==> cats[i].questions[j].id != qid
    ensures PatchQuestion(cats, cid, qid, patch) == cats
  {
    var r := PatchQuestion(cats, cid, qid, patch);
    forall i | 0 <= i < |cats| ensures r[i] == cats[i] {
      assert r[i].questions == cats[i].questions;
    }
  }

  /** Applying the same update twice is applying it once. */
  lemma PatchIdempotent(cats: seq<Category>, cid: string, qid: string, patch: QuestionPatch)
    ensures PatchQuestion(PatchQuestion(cats, cid, qid, patch), cid, qid, patch) == PatchQuestion(cats, cid, qid, patch)
  {
    var once := PatchQuestion(cats, cid, qid, patch);
    var twice := PatchQuestion(once, cid, qid, patch);
    forall i | 0 <= i < |cats| ensures twice[i] == once[i] {
      assert twice[i].questions == once[i].questions;
    }
  }

  /** Saving texts never touches a question's id, points or answered flag. */
  lemma TextPatchKeepsScoring(cats: seq<Category>, cid: string, qid: string, question: string, answer: string)
    ensures var r := PatchQuestion(cats, cid, qid, TextPatch(question, answer));
            forall i, j :: 0 <= i < |cats| && 0 <= j < |cats[i].questions| ==>
              && r[i].questions[j].id == cats[i].questions[j].id
              && r[i].questions[j].points == cats[i].questions[j].points
              && r[i].questions[j].isAnswered == cats[i].questions[j].isAnswered
  {
  }

  /** `selectedCategory` in a condition: null and the empty id are both falsy. */
  predicate IsSelected(selected: Option<string>)
  {
    selected.Some? && selected.value != ""
  }

  class Editor {
    var categories: seq<Category>
    var selectedCategory: Option<string>
    var editingQuestion: Option<Question>

    constructor (categories: seq<Category>)
      ensures this.categories == categories
      ensures selectedCategory == None && editingQuestion == None
    {
      this.categories := categories;
      selectedCategory := None;
      editingQuestion := None;
    }

    /** A blank name leaves the catalog alone; any other adds a category of five blank questions at the end. */
    method AddCategory(name: string, now: nat)
      modifies this`categories
      ensures categories == AppendCategory(old(categories), name, now)
    {
      categories := AppendCategory(categories, name, now);
    }

    /** Drops every category with the id; if it was the selected one, nothing is selected any more. */
    method DeleteCategory(id: string)
      modifies this`categories, this`selectedCategory
      ensures categories == RemoveCategory(old(categories), id)
      ensures old(selectedCategory) == Some(id) ==> selectedCategory == None
      ensures old(selectedCategory) != Some(id) ==> selectedCategory == old(selectedCategory)
    {
      categories := RemoveCategory(categories, id);
      if selectedCategory == Some(id) {
        selectedCategory := None;
      }
    }

    method UpdateQuestion(cid: string, qid: string, patch: QuestionPatch)
      modifies this`categories
      ensures categories == PatchQuestion(old(categories), cid, qid, patch)
    {
      categories := PatchQuestion(categories, cid, qid, patch);
    }

    /**
     * Writes the draft's texts into the question with the draft's id inside the
     * selected category and closes the draft; with no draft or no selection,
     * nothing happens.
     */
    method SaveQuestion()
      modifies this`categories, this`editingQuestion
      ensures old(editingQuestion).Some? && IsSelected(selectedCategory) ==>
                && categories == PatchQuestion(old(categories), selectedCategory.value, old(editingQuestion).value.id,
                                               TextPatch(old(editingQuestion).value.question, old(editingQuestion).value.answer))
                && editingQuestion == None
      ensures !(old(editingQuestion).Some? && IsSelected(selectedCategory)) ==>
                categories == old(categories) && editingQuestion == old(editingQuestion)
    {
      if editingQuestion.Some? && IsSelected(selectedCategory) {
        var draft := editingQuestion.value;
        UpdateQuestion(selectedCategory.value, draft.id, TextPatch(draft.question, draft.answer));
        editingQuestion := None;
      }
    }

    /** Clicking a category selects it. */
    method SelectCategory(id: string)
      modifies this`selectedCategory
      ensures selectedCategory == Some(id)
    {
      selectedCategory := Some(id);
    }

    /** Clicking a question opens a draft: a copy of the question. */
    method EditQuestion(q: Question)
      modifies this`editingQuestion
      ensures editingQuestion == Some(q)
    {
      editingQuestion := Some(q);
    }

    /** Typing in the question box changes the draft only. */
    method SetDraftQuestion(text: string)
      requires editingQuestion.Some?
      modifies this`editingQuestion
      ensures editingQuestion == Some(old(editingQuestion).value.(question := text))
    {
      editingQuestion := Some(editingQuestion.value.(question := text));
    }

    /** Typing in the answer box changes the draft only. */
    method SetDraftAnswer(text: string)
      requires editingQuestion.Some?
      modifies this`editingQuestion
      ensures editingQuestion == Some(old(editingQuestion).value.(answer := text))
    {
      editingQuestion := Some(editingQuestion.value.(answer := text));
    }

    /** "Cancel" drops the draft. */
    method CancelEdit()
      modifies this`editingQuestion
      ensures editingQuestion == None
    {
      editingQuestion := None;
    }
  }
}
