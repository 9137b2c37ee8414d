/** The extraction callback of the scrape route as the loop it is: one pass
    over the container's children that grows the record list `res` and
    moves the cursor `index` (starting at -1), with an inner loop over a
    task list's items. Each method is proved to compute the corresponding
    function of `Quiz`, so the lemmas there carry over. */
module Route {
  import opened Text
  import opened Quiz

  /** The inner loop: one option per `li`, the index of the last one whose
      `input` has a `checked` attribute (0 if none), and a failure at the
      first `li` without an `input`. */
  method ReadChecklist(items: seq<Item>) returns (out: Result<Choices>)
    ensures out.Failure? <==> exists k :: 0 <= k < |items| && items[k].input.None?
    ensures out.Success? ==> |out.value.options| == |items|
    ensures out.Success? ==> forall k :: 0 <= k < |items| ==> out.value.options[k].value == Trim(items[k].text)
    ensures out == ScanItems(items)
  {
    var options: seq<Choice> := [];
    var isCorrectAnswerIndex := 0;
    var index := 0;
    while index < |items|
      invariant 0 <= index <= |items|
      invariant ScanItems(items[..index]) == Success(Choices(options, isCorrectAnswerIndex))
    {
      var item := items[index];
      assert items[..index + 1][..index] == items[..index];
      if item.input.None? {
        out := Failure(MissingInput);
        ScanFailsIffMissingInput(items);
        return;
      }
      if IsChecked(item) {
        isCorrectAnswerIndex := index;
      }
      options := options + [Choice(Trim(item.text))];
      index := index + 1;
    }
    assert items[..index] == items;
    out := Success(Choices(options, isCorrectAnswerIndex));
    ScanFailsIffMissingInput(items);
    ScanOptionsAreItems(items);
  }

  /** The `page.evaluate` callback: classify each child and update the
      current record; a description or checklist met while the cursor is
      still -1 is read but written nowhere. */
  method Evaluate(children: seq<Child>) returns (out: Result<seq<Record>>)
    ensures out == Pass(children)
    ensures out.Success? ==> |out.value| == |HeadingQuestions(children)|
    ensures out.Success? ==> forall r :: r in out.value ==> WellFormed(r)
    ensures out.Failure? <==> exists i :: 0 <= i < |children| && Malformed(children[i])
  {
    var res: seq<Record> := [];
    var index := -1;
    var i := 0;
    while i < |children|
      invariant 0 <= i <= |children|
      invariant index == |res| - 1
      invariant Pass(children[..i]) == Success(res)
    {
      var child := children[i];
      FoldAppend([], children[..i], [child]);
      assert children[..i + 1] == children[..i] + [child];
      assert Fold(res, [child]) == Step(res, child);
      match Classify(child.cls) {
      case Heading =>
        index := index + 1;
        res := res + [NewRecord(QuestionOf(child.h4))];
      case Description =>
        if child.pre.None? {
          out := Failure(MissingPre);
          FailureIsFinal(children, i + 1);
          return;
        }
        if index >= 0 {
          res := res[index := res[index].(description := child.pre.value)];
        }
      case Checklist =>
        var read := ReadChecklist(child.items);
        if read.Failure? {
          out := Failure(read.error);
          FailureIsFinal(children, i + 1);
          return;
        }
        if index >= 0 {
          res := res[index := res[index].(options := read.value.options, answer := Indices([read.value.answer]))];
        }
      case Ignored =>
      }
      i := i + 1;
    }
    assert children[..i] == children;
    out := Success(res);
    FoldFailsIffMalformed([], children);
  }

  /** Once a prefix of the children fails, the whole pass fails the same way. */
  lemma FailureIsFinal(children: seq<Child>, n: nat)
    requires n <= |children|
    requires Pass(children[..n]).Failure?
    ensures Pass(children) == Pass(children[..n])
    ensures exists i :: 0 <= i < |children| && Malformed(children[i])
  {
    FoldAppend([], children[..n], children[n..]);
    assert children[..n] + children[n..] == children;
    FoldFailsIffMalformed([], children);
  }
}
