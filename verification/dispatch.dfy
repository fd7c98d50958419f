/** The query dispatcher of the page (`filtrarPalavras` in
    static/js/scripts.js): check the length, collect the form state into the
    request payload, and turn the server's reply into what the result list
    and the total line show. The network call itself is not modelled: the
    payload is the request, and the reply is an input. */
module Dispatch {
  import opened Options
  import opened Text
  import opened FormState
  import Endpoint

  /** A `{letra, posicao}` entry as the page sends it. */
  datatype Entry = Entry(letra: string, posicao: nat)

  /** The request body the page builds. The letter sets stay sets here; the
      order in which `Array.from` lists them is not fixed by the model. */
  datatype Payload = Payload(
    size: int,
    placed: seq<Entry>,
    extras: set<char>,
    excluded: set<char>,
    found: seq<set<char>>,
    incorrect: seq<Entry>)

  /** `Refused`: the length is invalid, a message is shown and no request is
      made. `Send`: the payload goes to `/filtrar`. */
  datatype Submission = Refused | Send(payload: Payload)

  /** Positioned letters: one entry per input whose trimmed, lower-cased value
      is a single letter, at that input's index, in input order. */
  function CollectPlaced(inputs: seq<string>): (r: seq<Entry>)
    ensures forall k :: 0 <= k < |r| ==>
              && r[k].posicao < |inputs|
              && IsLetter(r[k].letra)
              && r[k].letra == ReadLetter(inputs[r[k].posicao])
    ensures forall k, l :: 0 <= k < l < |r| ==> r[k].posicao < r[l].posicao
    ensures forall i :: 0 <= i < |inputs| ==>
              (IsLetter(ReadLetter(inputs[i])) <==> Entry(ReadLetter(inputs[i]), i) in r)
  {
    CollectLetters(ReadAll(inputs))
  }

  function ReadAll(inputs: seq<string>): (r: seq<string>)
    ensures |r| == |inputs|
    ensures forall i :: 0 <= i < |inputs| ==> r[i] == ReadLetter(inputs[i])
  {
    seq(|inputs|, i requires 0 <= i < |inputs| => ReadLetter(inputs[i]))
  }

  /** The entries for input values already trimmed and lower-cased. */
  function CollectLetters(read: seq<string>): (r: seq<Entry>)
    ensures forall k :: 0 <= k < |r| ==>
              r[k].posicao < |read| && IsLetter(r[k].letra) && r[k].letra == read[r[k].posicao]
    ensures forall k, l :: 0 <= k < l < |r| ==> r[k].posicao < r[l].posicao
    ensures forall i :: 0 <= i < |read| ==> (IsLetter(read[i]) <==> Entry(read[i], i) in r)
    decreases |read|
  {
    if |read| == 0 then []
    else
      var last := |read| - 1;
      var before := CollectLetters(read[..last]);
      if |read[last]| > 0 && IsLetter(read[last]) then before + [Entry(read[last], last)] else before
  }

  /** Misplaced letters: one entry per non-empty input, holding the raw value
      (neither trimmed, lower-cased nor validated) at that input's index. */
  function CollectIncorrect(inputs: seq<string>): (r: seq<Entry>)
    ensures forall k :: 0 <= k < |r| ==>
              && r[k].posicao < |inputs|
              && r[k].letra != ""
              && r[k].letra == inputs[r[k].posicao]
    ensures forall k, l :: 0 <= k < l < |r| ==> r[k].posicao < r[l].posicao
    ensures forall i :: 0 <= i < |inputs| ==> (inputs[i] != "" <==> Entry(inputs[i], i) in r)
    decreases |inputs|
  {
    if |inputs| == 0 then []
    else
      var last := |inputs| - 1;
      var before := CollectIncorrect(inputs[..last]);
      if inputs[last] != "" then before + [Entry(inputs[last], last)] else before
  }

  function RowLetters(rows: seq<FoundRow>): (r: seq<set<char>>)
    ensures |r| == |rows|
    ensures forall k :: 0 <= k < |rows| ==> r[k] == rows[k].letters
  {
    seq(|rows|, k requires 0 <= k < |rows| => rows[k].letters)
  }

  /** The dispatcher: no request unless the length is valid; otherwise the
      payload carries the length, the collected entries, both keyboard sets
      and every found-letters row's set. */
  function Collect(f: Form): (d: Submission)
    ensures d.Refused? <==> !ValidSize(f.size)
    ensures d.Send? ==>
              && d.payload.size == f.size.value > 0
              && d.payload.extras == f.extras
              && d.payload.excluded == f.excluded
              && |d.payload.found| == |f.rows|
              && (forall k :: 0 <= k < |f.rows| ==> d.payload.found[k] == f.rows[k].letters)
              && d.payload.placed == CollectPlaced(f.placedInputs)
              && d.payload.incorrect == CollectIncorrect(f.incorrectInputs)
  {
    if f.size.None? || f.size.value <= 0 then Refused
    else
      Send(Payload(f.size.value, CollectPlaced(f.placedInputs), f.extras, f.excluded,
                   RowLetters(f.rows), CollectIncorrect(f.incorrectInputs)))
  }

  /** No positioned entry is collected twice for the same index. */
  lemma PlacedPositionsDistinct(inputs: seq<string>, k: nat, l: nat)
    requires k < |CollectPlaced(inputs)| && l < |CollectPlaced(inputs)| && k != l
    ensures CollectPlaced(inputs)[k].posicao != CollectPlaced(inputs)[l].posicao
  {
  }

  /** Every sent position indexes an input that exists. When the rows agree
      with the length the positions are inside the word; while a typed
      shorter length waits for its handler they can lie past it. */
  lemma SentPositionsInRange(f: Form)
    requires Collect(f).Send?
    ensures forall k :: 0 <= k < |Collect(f).payload.placed| ==>
              Collect(f).payload.placed[k].posicao < |f.placedInputs|
    ensures Settled(f) ==>
              forall k :: 0 <= k < |Collect(f).payload.placed| ==>
                Collect(f).payload.placed[k].posicao < Collect(f).payload.size
  {
  }

  /** Typing 3 over a length of 5 right after typing "c" into the last
      input, and clicking a key before the length handler fires, sends an
      entry at position 4 with length 3. */
  lemma StaleEntrySent()
    ensures var f := Step(Step(Step(Init(Some(5)), PlacedTyped(4, "c")), SizeTyped(Some(3))),
                          Click(ExtrasBoard, 0));
            && Collect(f).Send?
            && Collect(f).payload.size == 3
            && Entry("c", 4) in Collect(f).payload.placed
  {
    var f := Step(Step(Step(Init(Some(5)), PlacedTyped(4, "c")), SizeTyped(Some(3))),
                  Click(ExtrasBoard, 0));
    assert f.placedInputs[4] == "c";
    ReadsAsLetter("c");
  }

  /** A page just loaded with length 5 and left untouched sends the length
      and nothing else. */
  lemma UntouchedPagePayload()
    ensures Collect(Init(Some(5))) == Send(Payload(5, [], {}, {}, [], []))
  {
    var f := Init(Some(5));
    NoLetterNoEntry(f.placedInputs);
    NothingTypedNoEntry(f.incorrectInputs);
  }

  lemma NoLetterNoEntry(inputs: seq<string>)
    requires forall i :: 0 <= i < |inputs| ==> inputs[i] == ""
    ensures CollectPlaced(inputs) == []
  {
    var read := ReadAll(inputs);
    assert forall i :: 0 <= i < |read| ==> read[i] == "";
    NothingReadNoEntry(read);
  }

  lemma {:induction false} NothingReadNoEntry(read: seq<string>)
    requires forall i :: 0 <= i < |read| ==> read[i] == ""
    ensures CollectLetters(read) == []
    decreases |read|
  {
    if |read| > 0 {
      NothingReadNoEntry(read[..|read| - 1]);
    }
  }

  lemma NothingTypedNoEntry(inputs: seq<string>)
    requires forall i :: 0 <= i < |inputs| ==> inputs[i] == ""
    ensures CollectIncorrect(inputs) == []
  {
  }

  /** Typing "A" into the third positioned input of that page sends exactly
      one positioned entry, `{letra: "a", posicao: 2}`. */
  lemma TypedLetterPayload()
    ensures Collect(TypePlaced(Init(Some(5)), 2, "A")).Send?
    ensures Collect(TypePlaced(Init(Some(5)), 2, "A")).payload.placed == [Entry("a", 2)]
  {
    var f := TypePlaced(Init(Some(5)), 2, "A");
    TypedInputs();
    ReadOneLetter();
    assert CollectPlaced(f.placedInputs) == CollectLetters(["", "", "a", "", ""]);
    CollectOneLetter();
  }

  lemma TypedInputs()
    ensures TypePlaced(Init(Some(5)), 2, "A").placedInputs == ["", "", "A", "", ""]
  {
    assert Init(Some(5)).placedInputs == ["", "", "", "", ""];
  }

  lemma ReadOneLetter()
    ensures ReadAll(["", "", "A", "", ""]) == ["", "", "a", "", ""]
  {
    var inputs: seq<string> := ["", "", "A", "", ""];
    var expected: seq<string> := ["", "", "a", "", ""];
    var read := ReadAll(inputs);
    ReadsLowered();
    forall i | 0 <= i < 5
      ensures read[i] == expected[i]
    {
      assert read[i] == ReadLetter(inputs[i]);
    }
  }

  /** The found-row and positioned inputs fold an upper-case letter to lower
      case; an empty value reads as empty. */
  lemma ReadsLowered()
    ensures ReadLetter("A") == "a" && ReadLetter("") == ""
  {
    StripFixed("A");
    assert Lower("A")[0] == 'a';
  }

  lemma CollectOneLetter()
    ensures CollectLetters(["", "", "a", "", ""]) == [Entry("a", 2)]
  {
    var read: seq<string> := ["", "", "a", "", ""];
    assert CollectLetters(read[..2]) == [] by {
      NothingReadNoEntry(read[..2]);
    }
    assert read[..3][..2] == read[..2];
    assert read[..4][..3] == read[..3];
    assert read[..5][..4] == read[..4];
    assert read[..5] == read;
  }

  /** Clicking R on the extras keyboard of a fresh page sends `["r"]` as the
      extra letters; clicking it again sends none. */
  lemma ClickedKeyPayload()
    ensures Collect(Toggle(Init(Some(5)), ExtrasBoard, 'R')).payload.extras == {'r'}
    ensures Collect(Toggle(Toggle(Init(Some(5)), ExtrasBoard, 'R'), ExtrasBoard, 'R')).payload.extras == {}
  {
    ToggleTwice(Init(Some(5)), ExtrasBoard, 'R');
  }

  /** The server's reply as the page receives it. */
  datatype Reply = Delivered(response: Endpoint.Response) | TransportFailed

  datatype Line = Note(text: string) | Word(word: string)

  /** The total line (`None` when blanked) and the items of the result list. */
  datatype View = View(total: Option<nat>, lines: seq<Line>)

  const InvalidSizeText: string := "Por favor, insira um tamanho válido da palavra."
  const NoWordsText: string := "Nenhuma palavra encontrada."
  const FailureText: string := "Ocorreu um erro ao filtrar as palavras."

  /** What the page shows when it refuses to send. */
  const RefusedView: View := View(None, [Note(InvalidSizeText)])

  /** The reply handler: an error reply shows `Erro: <message>` and blanks the
      total; an answer shows its total and one item per word, or a single
      "no words" item; a failed request shows the failure message. */
  function Render(reply: Reply): (v: View)
    ensures v.total.Some? <==> reply.Delivered? && reply.response.Answer?
    ensures v.total.Some? ==> v.total.value == reply.response.total
    ensures v.total.None? ==> |v.lines| == 1 && v.lines[0].Note?
    ensures reply.TransportFailed? ==> v == View(None, [Note(FailureText)])
    ensures reply.Delivered? && reply.response.Answer? && reply.response.words == [] ==>
              v.lines == [Note(NoWordsText)]
    ensures reply.Delivered? && reply.response.Answer? && reply.response.words != [] ==>
              |v.lines| == |reply.response.words| &&
              forall i :: 0 <= i < |v.lines| ==> v.lines[i] == Word(reply.response.words[i])
    ensures reply.Delivered? && reply.response.Error? ==>
              v.lines == [Note("Erro: " + Endpoint.Message(reply.response.failure))]
  {
    match reply
    case TransportFailed => View(None, [Note(FailureText)])
    case Delivered(Error(failure)) => View(None, [Note("Erro: " + Endpoint.Message(failure))])
    case Delivered(Answer(total, words)) =>
      if |words| == 0 then View(Some(total), [Note(NoWordsText)])
      else View(Some(total), seq(|words|, i requires 0 <= i < |words| => Word(words[i])))
  }

  /** The words a view lists, in order. */
  function ListedWords(lines: seq<Line>): (r: seq<string>)
    ensures |r| <= |lines|
    decreases |lines|
  {
    if lines == [] then []
    else (if lines[0].Word? then [lines[0].word] else []) + ListedWords(lines[1..])
  }

  /** The page lists exactly the words of the answer, in the server's order. */
  lemma RenderListsAnswer(total: nat, words: seq<string>)
    ensures ListedWords(Render(Delivered(Endpoint.Answer(total, words))).lines) == words
  {
    var lines := Render(Delivered(Endpoint.Answer(total, words))).lines;
    if words != [] {
      ListedWordsOfWords(words);
    }
  }

  lemma {:induction false} ListedWordsOfWords(words: seq<string>)
    ensures ListedWords(seq(|words|, i requires 0 <= i < |words| => Word(words[i]))) == words
    decreases |words|
  {
    if words != [] {
      var lines := seq(|words|, i requires 0 <= i < |words| => Word(words[i]));
      ListedWordsOfWords(words[1..]);
      assert lines[1..] == seq(|words[1..]|, i requires 0 <= i < |words[1..]| => Word(words[1..][i]));
    }
  }

  /** An empty answer shows a total of 0 and the single "no words" item. */
  lemma EmptyAnswerView()
    ensures Render(Delivered(Endpoint.Answer(0, []))) == View(Some(0), [Note(NoWordsText)])
  {
  }
}
