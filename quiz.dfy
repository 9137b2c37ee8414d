/** The quiz extractor of the scrape route, as functions: the children of the
    quiz's `article` element are classified one by one and folded into a
    growing list of question records; afterwards the records with fewer
    than two options are dropped. `Route` runs the same pass as a loop. */
module Quiz {
  import opened Text

  datatype Option<T> = None | Some(value: T)

  /** The `checkbox` input of a list item; `checked` is the value of its
      `checked` attribute, `None` when the attribute is absent. */
  datatype Input = Input(checked: Option<string>)

  /** An `li` of a task list: its rendered text (`outerText`) and its first
      nested `input`, if any. */
  datatype Item = Item(text: string, input: Option<Input>)

  /** A direct child of the quiz container, seen through the queries the
      extractor makes on it: its `class` attribute, the inner markup of its
      first `h4`, the rendered text of its first `pre`, and its `li`
      descendants in document order. */
  datatype Child = Child(cls: Option<string>, h4: Option<string>, pre: Option<string>, items: seq<Item>)

  /** `{ value }`, one choice of a question. */
  datatype Choice = Choice(value: string)

  /** The `answer` field: the bare number `0` a record is created with, or
      the one-element array a checklist stores. */
  datatype Answer = Scalar(n: int) | Indices(indices: seq<int>)

  /** A question record; `question` is `None` where the source leaves it
      `undefined`. The field `type` is called `kind` here. */
  datatype Record = Record(question: Option<string>, kind: string, description: string,
                           options: seq<Choice>, answer: Answer)

  /** The two ways the extraction throws: the lookup of a `pre` or of an
      `input` finds nothing and the missing element is dereferenced. */
  datatype Error = MissingPre | MissingInput

  datatype Result<T> = Success(value: T) | Failure(error: Error)

  const HeadingClass := "markdown-heading"
  const HighlightClass := "highlight"
  const TaskListClass := "contains-task-list"
  const SingleChoice := "single_choice"

  /** What a child is, decided once per child by its `class` attribute. */
  datatype Kind = Heading | Description | Checklist | Ignored

  /** Exact match for the heading marker first, then substring tests for
      `highlight` and `contains-task-list`, in that order. A child without
      a `class` attribute is ignored. */
  function Classify(cls: Option<string>): (k: Kind)
    ensures cls.None? ==> k == Ignored
    ensures k == Description ==> cls.Some? && exists i :: OccursAt(cls.value, HighlightClass, i)
    ensures k == Checklist ==> cls.Some? && exists i :: OccursAt(cls.value, TaskListClass, i)
  {
    if cls == Some(HeadingClass) then Heading
    else if cls.Some? && Contains(cls.value, HighlightClass) then Description
    else if cls.Some? && Contains(cls.value, TaskListClass) then Checklist
    else Ignored
  }

  /** The classification in terms of where the class names occur: exactly
      the heading marker is a heading; otherwise an occurrence of
      `highlight` anywhere makes a description, and failing that an
      occurrence of `contains-task-list` makes a checklist; everything
      else, a missing class included, is ignored. */
  lemma ClassifyPriority(cls: string)
    ensures Classify(Some(cls)) == Heading <==> cls == HeadingClass
    ensures Classify(Some(cls)) == Description <==>
              cls != HeadingClass && exists k :: OccursAt(cls, HighlightClass, k)
    ensures Classify(Some(cls)) == Checklist <==>
              cls != HeadingClass && (forall k :: !OccursAt(cls, HighlightClass, k)) &&
              exists k :: OccursAt(cls, TaskListClass, k)
    ensures Classify(Some(cls)) == Ignored <==>
              cls != HeadingClass && (forall k :: !OccursAt(cls, HighlightClass, k)) &&
              (forall k :: !OccursAt(cls, TaskListClass, k))
    ensures Classify(None) == Ignored
  {
  }

  /** The second part of the `h4` markup split on `.`, trimmed: the text
      between the first and second `.`; `None` when there is no `h4` or its
      markup has no `.`. */
  function QuestionOf(h4: Option<string>): (q: Option<string>)
    ensures q.Some? ==> h4.Some? && '.' in h4.value
    ensures q.Some? ==> q.value == [] || (!IsSpace(q.value[0]) && !IsSpace(q.value[|q.value| - 1]))
  {
    if h4.None? then None
    else
      var parts := Split(h4.value, '.');
      if |parts| < 2 then None
      else
        assert '.' in h4.value by {
          if '.' !in h4.value {
            SplitNoSeparator(h4.value, '.');
          }
        }
        Some(Trim(parts[1]))
  }

  /** The question is the trimmed text between the first and the second
      `.` (or the end) of the `h4` markup, whatever precedes the first `.`. */
  lemma QuestionBetweenDots(prefix: string, text: string, rest: string)
    requires '.' !in prefix && '.' !in text
    requires rest == [] || rest[0] == '.'
    ensures QuestionOf(Some(prefix + "." + text + rest)) == Some(Trim(text))
  {
    var h := prefix + "." + text + rest;
    assert h == prefix + ['.'] + (text + rest);
    SplitAtSeparator(prefix, text + rest, '.');
    SplitNoSeparator(prefix, '.');
    if rest == [] {
      assert text + rest == text;
      SplitNoSeparator(text, '.');
    } else {
      assert text + rest == text + ['.'] + rest[1..];
      SplitAtSeparator(text, rest[1..], '.');
      SplitNoSeparator(text, '.');
    }
  }

  /** Markup without any `.` yields no question. */
  lemma QuestionNeedsDot(h: string)
    requires '.' !in h
    ensures QuestionOf(Some(h)) == None
  {
    SplitNoSeparator(h, '.');
  }

  /** Whether an item's `input` carries a `checked` attribute, whatever its
      value: only whether the attribute is present counts. */
  predicate IsChecked(item: Item) {
    item.input.Some? && item.input.value.checked.Some?
  }

  /** What reading a task list yields: the options and the answer index. */
  datatype Choices = Choices(options: seq<Choice>, answer: int)

  /** The task list's items read in order, as the inner loop of the
      extractor does: one option per item with its text trimmed, and the
      index of the last checked item (0 when none is checked); fails as
      soon as an item has no `input`. */
  function ScanItems(items: seq<Item>): (r: Result<Choices>)
    ensures r.Failure? ==> r.error == MissingInput
    ensures r.Success? ==> |r.value.options| == |items| && 0 <= r.value.answer
    ensures r.Success? && items != [] ==> r.value.answer < |items|
    decreases |items|
  {
    if items == [] then Success(Choices([], 0))
    else
      var last := items[|items| - 1];
      var prev := ScanItems(items[..|items| - 1]);
      if prev.Failure? then prev
      else if last.input.None? then Failure(MissingInput)
      else Success(Choices(prev.value.options + [Choice(Trim(last.text))],
                           if IsChecked(last) then |items| - 1 else prev.value.answer))
  }

  /** The scan fails exactly when some item has no `input`. */
  lemma {:induction false} ScanFailsIffMissingInput(items: seq<Item>)
    ensures ScanItems(items).Failure? <==> exists k :: 0 <= k < |items| && items[k].input.None?
    decreases |items|
  {
    if items != [] {
      var init := items[..|items| - 1];
      ScanFailsIffMissingInput(init);
      if ScanItems(init).Failure? {
        var k :| 0 <= k < |init| && init[k].input.None?;
        assert items[k] == init[k];
      } else if items[|items| - 1].input.Some? {
        forall k | 0 <= k < |items| ensures items[k].input.Some? {
          if k < |init| {
            assert items[k] == init[k];
          }
        }
      }
    }
  }

  /** One option per item, in document order, holding the item's text
      trimmed. */
  lemma {:induction false} ScanOptionsAreItems(items: seq<Item>)
    requires ScanItems(items).Success?
    ensures forall k :: 0 <= k < |items| ==> ScanItems(items).value.options[k] == Choice(Trim(items[k].text))
    decreases |items|
  {
    if items != [] {
      var init := items[..|items| - 1];
      ScanOptionsAreItems(init);
      assert forall k :: 0 <= k < |init| ==> init[k] == items[k];
    }
  }

  /** Last checked item wins: the answer is the index of the last checked
      item, and 0 when no item is checked. */
  lemma {:induction false} AnswerIsLastChecked(items: seq<Item>)
    requires ScanItems(items).Success?
    ensures var a := ScanItems(items).value.answer;
      if exists k :: 0 <= k < |items| && IsChecked(items[k])
      then 0 <= a < |items| && IsChecked(items[a]) && forall j :: a < j < |items| ==> !IsChecked(items[j])
      else a == 0
    decreases |items|
  {
    if items != [] {
      var init := items[..|items| - 1];
      AnswerIsLastChecked(init);
      var a := ScanItems(items).value.answer;
      if IsChecked(items[|items| - 1]) {
        assert a == |items| - 1;
      } else {
        assert a == ScanItems(init).value.answer;
        if exists k :: 0 <= k < |items| && IsChecked(items[k]) {
          var k :| 0 <= k < |items| && IsChecked(items[k]);
          assert k < |init| && IsChecked(init[k]);
          assert IsChecked(init[a]) && items[a] == init[a];
          forall j | a < j < |items| ensures !IsChecked(items[j]) {
            if j < |init| {
              assert items[j] == init[j];
            }
          }
        } else {
          forall k | 0 <= k < |init| ensures !IsChecked(init[k]) {
            assert items[k] == init[k];
          }
        }
      }
    }
  }

  /** Only the presence of `checked` matters: items that agree on text, on
      having an `input` and on carrying `checked` give the same options and
      answer, whatever the attribute values. */
  lemma {:induction false} CheckedValueIrrelevant(a: seq<Item>, b: seq<Item>)
    requires |a| == |b|
    requires forall k :: 0 <= k < |a| ==>
      a[k].text == b[k].text && a[k].input.Some? == b[k].input.Some? && IsChecked(a[k]) == IsChecked(b[k])
    ensures ScanItems(a) == ScanItems(b)
    decreases |a|
  {
    if a != [] {
      CheckedValueIrrelevant(a[..|a| - 1], b[..|b| - 1]);
    }
  }

  /** The record a heading opens. */
  function NewRecord(question: Option<string>): Record {
    Record(question, SingleChoice, "", [], Scalar(0))
  }

  /** One child folded into the records; the current record is the last one
      (the cursor is `|res| - 1`), and a description or checklist seen
      before any heading is read but lands nowhere. */
  function Step(res: seq<Record>, child: Child): (r: Result<seq<Record>>)
    ensures r.Success? ==> |r.value| == |res| + (if Classify(child.cls) == Heading then 1 else 0)
    ensures r.Success? ==> forall j :: 0 <= j < |res| - 1 ==> r.value[j] == res[j]
  {
    match Classify(child.cls)
    case Heading => Success(res + [NewRecord(QuestionOf(child.h4))])
    case Description =>
      if child.pre.None? then Failure(MissingPre)
      else if res == [] then Success(res)
      else Success(res[|res| - 1 := res[|res| - 1].(description := child.pre.value)])
    case Checklist =>
      var read := ScanItems(child.items);
      if read.Failure? then Failure(read.error)
      else if res == [] then Success(res)
      else Success(res[|res| - 1 := res[|res| - 1].(options := read.value.options,
                                                     answer := Indices([read.value.answer]))])
    case Ignored => Success(res)
  }

  /** A heading appends exactly one fresh record, with the question taken
      from its `h4` and the default fields. */
  lemma HeadingAppends(res: seq<Record>, child: Child)
    requires Classify(child.cls) == Heading
    ensures Step(res, child).Success?
    ensures Step(res, child).value[..|res|] == res
    ensures Step(res, child).value[|res|] ==
      Record(QuestionOf(child.h4), SingleChoice, "", [], Scalar(0))
  {
  }

  /** A description replaces only the current record's `description`, with
      the `pre` text as rendered (untrimmed). */
  lemma DescriptionUpdatesOnlyDescription(res: seq<Record>, child: Child)
    requires Classify(child.cls) == Description && child.pre.Some? && res != []
    ensures Step(res, child).Success?
    ensures var last := Step(res, child).value[|res| - 1];
      |Step(res, child).value| == |res| &&
      last.description == child.pre.value &&
      last.question == res[|res| - 1].question && last.kind == res[|res| - 1].kind &&
      last.options == res[|res| - 1].options && last.answer == res[|res| - 1].answer
  {
  }

  /** A checklist replaces the current record's `options` and `answer`
      wholesale and keeps its question, type and description. */
  lemma ChecklistUpdatesOnlyChoices(res: seq<Record>, child: Child)
    requires Classify(child.cls) == Checklist && ScanItems(child.items).Success? && res != []
    ensures Step(res, child).Success?
    ensures var last := Step(res, child).value[|res| - 1];
      |Step(res, child).value| == |res| &&
      last.options == ScanItems(child.items).value.options &&
      last.answer == Indices([ScanItems(child.items).value.answer]) &&
      last.question == res[|res| - 1].question && last.kind == res[|res| - 1].kind &&
      last.description == res[|res| - 1].description
  {
  }

  /** A child with an unrecognised or missing class, or a well-formed
      description or checklist before the first heading, changes nothing. */
  lemma StepWithoutEffect(res: seq<Record>, child: Child)
    requires Classify(child.cls) == Ignored ||
             (res == [] && Classify(child.cls) != Heading && Step(res, child).Success?)
    ensures Step(res, child) == Success(res)
  {
  }

  /** Left-to-right pass over the children, starting from `res`; the first
      failure ends the whole pass. */
  function Fold(res: seq<Record>, children: seq<Child>): (r: Result<seq<Record>>)
    ensures r.Success? ==> |res| <= |r.value|
    decreases |children|
  {
    if children == [] then Success(res)
    else
      match Step(res, children[0])
      case Failure(e) => Failure(e)
      case Success(next) => Fold(next, children[1..])
  }

  /** The extraction callback: the pass from no records and cursor -1. */
  function Pass(children: seq<Child>): (r: Result<seq<Record>>)
    ensures r.Success? ==> |r.value| == |HeadingQuestions(children)|
    ensures r.Success? ==> forall rec :: rec in r.value ==> WellFormed(rec)
  {
    var r := Fold([], children);
    if r.Failure? then r
    else
      FoldFollowsHeadings([], children);
      FoldWellFormed([], children);
      r
  }

  /** Folding over two runs of children is folding over the first, then
      over the second from where the first left off. */
  lemma {:induction false} FoldAppend(res: seq<Record>, first: seq<Child>, second: seq<Child>)
    ensures Fold(res, first + second) ==
      match Fold(res, first)
      case Failure(e) => Failure(e)
      case Success(mid) => Fold(mid, second)
    decreases |first|
  {
    if first == [] {
      assert first + second == second;
    } else {
      assert (first + second)[0] == first[0];
      assert (first + second)[1..] == first[1..] + second;
      match Step(res, first[0])
      case Failure(e) =>
      case Success(next) => FoldAppend(next, first[1..], second);
    }
  }

  /** A child the pass cannot read: a description without `pre`, or a
      checklist with an item that has no `input`. */
  predicate Malformed(child: Child) {
    (Classify(child.cls) == Description && child.pre.None?) ||
    (Classify(child.cls) == Checklist && exists k :: 0 <= k < |child.items| && child.items[k].input.None?)
  }

  /** The pass fails exactly when some child is malformed, wherever it
      stands, whether or not a heading precedes it. */
  lemma {:induction false} FoldFailsIffMalformed(res: seq<Record>, children: seq<Child>)
    ensures Fold(res, children).Failure? <==> exists i :: 0 <= i < |children| && Malformed(children[i])
    decreases |children|
  {
    if children != [] {
      var c := children[0];
      ScanFailsIffMissingInput(c.items);
      assert Step(res, c).Failure? <==> Malformed(c);
      match Step(res, c)
      case Failure(e) =>
      case Success(next) =>
        FoldFailsIffMalformed(next, children[1..]);
        assert forall i :: 1 <= i < |children| ==> children[i] == children[1..][i - 1];
        if exists i :: 0 <= i < |children[1..]| && Malformed(children[1..][i]) {
          var i :| 0 <= i < |children[1..]| && Malformed(children[1..][i]);
          assert Malformed(children[i + 1]);
        }
    }
  }

  /** The questions of the heading children, in document order. */
  function HeadingQuestions(children: seq<Child>): (qs: seq<Option<string>>)
    decreases |children|
  {
    if children == [] then []
    else
      (if Classify(children[0].cls) == Heading then [QuestionOf(children[0].h4)] else [])
      + HeadingQuestions(children[1..])
  }

  /** The questions of some records, in order. */
  function QuestionsOf(res: seq<Record>): (qs: seq<Option<string>>)
    ensures |qs| == |res|
    ensures forall k :: 0 <= k < |res| ==> qs[k] == res[k].question
  {
    seq(|res|, k requires 0 <= k < |res| => res[k].question)
  }

  /** One record per heading child, in the headings' order, each carrying
      its heading's question; descriptions and checklists never change a
      question. */
  lemma {:induction false} FoldFollowsHeadings(res: seq<Record>, children: seq<Child>)
    requires Fold(res, children).Success?
    ensures QuestionsOf(Fold(res, children).value) == QuestionsOf(res) + HeadingQuestions(children)
    decreases |children|
  {
    if children != [] {
      var c := children[0];
      var next := Step(res, c).value;
      FoldFollowsHeadings(next, children[1..]);
      if Classify(c.cls) == Heading {
        assert QuestionsOf(next) == QuestionsOf(res) + [QuestionOf(c.h4)];
      } else {
        assert QuestionsOf(next) == QuestionsOf(res);
      }
    }
  }

  /** Every record the pass produces is well formed: of type
      `single_choice`, with the bare answer 0 and no options until a
      checklist arrives, and afterwards a one-element answer that indexes
      the options whenever there are any. */
  predicate WellFormed(r: Record) {
    r.kind == SingleChoice &&
    match r.answer
    case Scalar(n) => n == 0 && r.options == []
    case Indices(ks) => |ks| == 1 && 0 <= ks[0] && (r.options != [] ==> ks[0] < |r.options|)
  }

  /** One step keeps every record well formed. */
  lemma StepWellFormed(res: seq<Record>, child: Child)
    requires forall r :: r in res ==> WellFormed(r)
    requires Step(res, child).Success?
    ensures forall r :: r in Step(res, child).value ==> WellFormed(r)
  {
    var next := Step(res, child).value;
    match Classify(child.cls)
    case Heading =>
      assert next == res + [NewRecord(QuestionOf(child.h4))];
    case Description =>
      if res != [] {
        var last := res[|res| - 1];
        assert WellFormed(last);
        assert next == res[|res| - 1 := last.(description := child.pre.value)];
        assert forall j :: 0 <= j < |next| ==> next[j] == res[j] || next[j] == last.(description := child.pre.value);
      }
    case Checklist =>
      if res != [] {
        var read := ScanItems(child.items).value;
        var last := res[|res| - 1];
        var updated := last.(options := read.options, answer := Indices([read.answer]));
        assert last in res;
        assert |read.options| == |child.items|;
        assert WellFormed(updated);
        assert forall j :: 0 <= j < |next| ==> next[j] == res[j] || next[j] == updated;
      }
    case Ignored =>
  }

  lemma {:induction false} FoldWellFormed(res: seq<Record>, children: seq<Child>)
    requires forall r :: r in res ==> WellFormed(r)
    requires Fold(res, children).Success?
    ensures forall r :: r in Fold(res, children).value ==> WellFormed(r)
    decreases |children|
  {
    if children != [] {
      StepWellFormed(res, children[0]);
      FoldWellFormed(Step(res, children[0]).value, children[1..]);
    }
  }

  /** Children before the first heading leave no trace: if the leading run
      has no heading and reads cleanly, the pass is the pass over the rest. */
  lemma {:induction false} LeadingChildrenIgnored(lead: seq<Child>, rest: seq<Child>)
    requires forall i :: 0 <= i < |lead| ==> Classify(lead[i].cls) != Heading
    requires Pass(lead).Success?
    ensures Pass(lead + rest) == Pass(rest)
  {
    FoldAppend([], lead, rest);
    FoldFollowsHeadings([], lead);
    NoHeadingsNoQuestions(lead);
  }

  lemma {:induction false} NoHeadingsNoQuestions(children: seq<Child>)
    requires forall i :: 0 <= i < |children| ==> Classify(children[i].cls) != Heading
    ensures HeadingQuestions(children) == []
    decreases |children|
  {
    if children != [] {
      NoHeadingsNoQuestions(children[1..]);
    }
  }

  /** `b` keeps some of the elements of `a`, in their order. */
  predicate IsSubsequence<T(==)>(b: seq<T>, a: seq<T>)
    decreases |a|
  {
    b == [] || (a != [] && ((b[0] == a[0] && IsSubsequence(b[1..], a[1..])) || IsSubsequence(b, a[1..])))
  }

  /** The route's filter: keep the records with more than one option. */
  function KeepMultipleChoice(res: seq<Record>): (kept: seq<Record>)
    ensures |kept| <= |res|
    ensures forall r :: r in kept <==> r in res && |r.options| > 1
    ensures forall r :: multiset(kept)[r] == if |r.options| > 1 then multiset(res)[r] else 0
    ensures IsSubsequence(kept, res)
    decreases |res|
  {
    if res == [] then []
    else
      assert res == [res[0]] + res[1..];
      if |res[0].options| > 1 then [res[0]] + KeepMultipleChoice(res[1..])
      else KeepMultipleChoice(res[1..])
  }

  /** The route's result: the records of the pass with more than one option,
      or the pass's failure. */
  function Extract(children: seq<Child>): (r: Result<seq<Record>>)
    ensures r.Success? ==> |r.value| <= |HeadingQuestions(children)|
  {
    match Pass(children)
    case Failure(e) => Failure(e)
    case Success(res) => Success(KeepMultipleChoice(res))
  }

  /** Every record returned has at least two options, of type
      `single_choice`, and a one-element answer that is a valid option
      index. */
  lemma ExtractedRecordsValid(children: seq<Child>)
    requires Extract(children).Success?
    ensures forall r :: r in Extract(children).value ==>
      |r.options| >= 2 && r.kind == SingleChoice &&
      r.answer.Indices? && |r.answer.indices| == 1 && 0 <= r.answer.indices[0] < |r.options|
  {
    FoldWellFormed([], children);
  }

  /** The returned records are records of the pass in heading order: their
      questions are a subsequence of the heading children's questions. */
  lemma ExtractedInHeadingOrder(children: seq<Child>)
    requires Extract(children).Success?
    ensures |Pass(children).value| == |HeadingQuestions(children)|
    ensures QuestionsOf(Pass(children).value) == HeadingQuestions(children)
    ensures IsSubsequence(Extract(children).value, Pass(children).value)
  {
    FoldFollowsHeadings([], children);
  }

  /** Whole-call failure: the extraction fails, with no partial result,
      exactly when some child is malformed. */
  lemma ExtractFailsIffMalformed(children: seq<Child>)
    ensures Extract(children).Failure? <==> exists i :: 0 <= i < |children| && Malformed(children[i])
  {
    FoldFailsIffMalformed([], children);
  }
}
