/** The page's constraint state (static/js/scripts.js) with the DOM abstracted
    away: the word-length field, the values of the positioned-letter and
    misplaced-letter inputs, the two virtual-keyboard letter sets, and the
    found-letters rows. Every event handler is a pure transition. */
module FormState {
  import opened Options
  import opened Text

  /** One found-letters row: the number of inputs it was created with and the
      letters typed into it so far. */
  datatype FoundRow = FoundRow(width: nat, letters: set<char>)

  /** `size` is what `parseInt` reads from the length field (`None` for NaN).
      `pending` says that the length field was typed into and its debounced
      handler, which rebuilds the input rows, has not fired yet. */
  datatype Form = Form(
    size: Option<int>,
    placedInputs: seq<string>,
    incorrectInputs: seq<string>,
    extras: set<char>,
    excluded: set<char>,
    rows: seq<FoundRow>,
    pending: bool)

  datatype Board = ExtrasBoard | ExclusionBoard

  /** The keys of each virtual keyboard, in order. */
  const Alphabet: string := "ABCDEFGHIJKLMNOPQRSTUVWXYZ"

  /** A length the page accepts: a number greater than zero. */
  predicate ValidSize(size: Option<int>) {
    size.Some? && size.value > 0
  }

  /** A freshly generated row of `n` empty inputs (`for (i = 0; i < n; i++)`
      creates none when `n` is not positive). */
  function EmptyInputs(n: int): (r: seq<string>)
    ensures |r| == (if n > 0 then n else 0)
    ensures forall i :: 0 <= i < |r| ==> r[i] == ""
  {
    seq(if n > 0 then n else 0, _ => "")
  }

  /** Regenerates both input rows for length `n` (`gerarInputs` followed by
      `atualizarLetrasIncorretas`), discarding what was typed. */
  function Regenerate(f: Form, n: int): (r: Form)
    ensures |r.placedInputs| == |r.incorrectInputs| == (if n > 0 then n else 0)
    ensures forall i :: 0 <= i < |r.placedInputs| ==> r.placedInputs[i] == "" && r.incorrectInputs[i] == ""
    ensures r == f.(placedInputs := r.placedInputs, incorrectInputs := r.incorrectInputs)
  {
    f.(placedInputs := EmptyInputs(n), incorrectInputs := EmptyInputs(n))
  }

  /** Page load: both rows are built for `parseInt(value) || 5`, which is 5
      when the field is not a number or is zero; the field itself keeps its
      value. Both keyboards start with nothing selected. */
  function Init(size: Option<int>): (f: Form)
    ensures f.size == size && f.extras == {} && f.excluded == {} && f.rows == [] && !f.pending
    ensures size.None? || size == Some(0) ==> |f.placedInputs| == 5 == |f.incorrectInputs|
    ensures ValidSize(size) ==> |f.placedInputs| == size.value == |f.incorrectInputs|
    ensures size.Some? && size.value < 0 ==> f.placedInputs == [] && f.incorrectInputs == []
    ensures forall i :: 0 <= i < |f.placedInputs| ==> f.placedInputs[i] == ""
    ensures forall i :: 0 <= i < |f.incorrectInputs| ==> f.incorrectInputs[i] == ""
  {
    var n := if size.None? || size.value == 0 then 5 else size.value;
    Regenerate(Form(size, [], [], {}, {}, [], false), n)
  }

  /** The "+" button: the length becomes one more than its value, a NaN
      counting as 0, and both rows are regenerated at the new length. */
  function Increment(f: Form): (r: Form)
    ensures r.size == Some(f.size.GetOr(0) + 1)
    ensures ValidSize(r.size) ==> |r.placedInputs| == r.size.value == |r.incorrectInputs|
    ensures !ValidSize(r.size) ==> r.placedInputs == [] && r.incorrectInputs == []
    ensures forall i :: 0 <= i < |r.placedInputs| ==> r.placedInputs[i] == ""
    ensures forall i :: 0 <= i < |r.incorrectInputs| ==> r.incorrectInputs[i] == ""
    ensures r.extras == f.extras && r.excluded == f.excluded && r.rows == f.rows
    ensures r.pending == f.pending
  {
    var n := f.size.GetOr(0) + 1;
    Regenerate(f.(size := Some(n)), n)
  }

  /** The "-" button: nothing happens when the length is NaN or at most 1;
      otherwise it drops by one and both rows are regenerated. */
  function Decrement(f: Form): (r: Form)
    ensures r == f <==> !ValidSize(f.size) || f.size.value <= 1
    ensures r != f ==> r.size == Some(f.size.value - 1) && r.size.value >= 1
    ensures r != f ==> |r.placedInputs| == r.size.value == |r.incorrectInputs|
    ensures r != f ==> forall i :: 0 <= i < |r.placedInputs| ==> r.placedInputs[i] == "" && r.incorrectInputs[i] == ""
    ensures r.extras == f.extras && r.excluded == f.excluded && r.rows == f.rows
    ensures r.pending == f.pending
  {
    if f.size.None? || f.size.value <= 1 then f
    else
      var n := f.size.value - 1;
      var r := Regenerate(f.(size := Some(n)), n);
      assert r.size != f.size;
      r
  }

  /** Typing into the length field: an invalid value clears the positioned
      row only (the misplaced-letter row stays as it was); a valid one
      regenerates both rows. */
  function EditSize(f: Form, size: Option<int>): (r: Form)
    ensures r.size == size
    ensures !ValidSize(size) ==> r.placedInputs == [] && r.incorrectInputs == f.incorrectInputs
    ensures ValidSize(size) ==> |r.placedInputs| == size.value == |r.incorrectInputs|
    ensures ValidSize(size) ==> forall i :: 0 <= i < size.value ==> r.placedInputs[i] == "" && r.incorrectInputs[i] == ""
    ensures r.extras == f.extras && r.excluded == f.excluded && r.rows == f.rows
    ensures r.pending == f.pending
  {
    if size.None? || size.value <= 0 then f.(size := size, placedInputs := [])
    else Regenerate(f.(size := size), size.value)
  }

  /** "-" after "+" gives back the length, with both rows rebuilt empty. */
  lemma DecrementUndoesIncrement(f: Form)
    requires ValidSize(f.size)
    ensures Decrement(Increment(f)) == Regenerate(f, f.size.value)
  {
  }

  /** Typing the same length twice is typing it once. */
  lemma EditSizeIdempotent(f: Form, size: Option<int>)
    ensures EditSize(EditSize(f, size), size) == EditSize(f, size)
  {
  }

  /** Symmetric difference with a single letter: membership of `c` flips. */
  function Flip(s: set<char>, c: char): set<char> {
    if c in s then s - {c} else s + {c}
  }

  /** A click on key `key` of one virtual keyboard flips the lower-case
      letter in that keyboard's set and touches nothing else. */
  function Toggle(f: Form, board: Board, key: char): (r: Form)
    requires IsUpper(key)
    ensures var c := LowerChar(key);
            var (before, after) := if board == ExtrasBoard then (f.extras, r.extras)
                                   else (f.excluded, r.excluded);
            && IsLower(c)
            && (c in after <==> c !in before)
            && (forall d :: d != c ==> (d in after <==> d in before))
    ensures board == ExtrasBoard ==> r == f.(extras := r.extras)
    ensures board == ExclusionBoard ==> r == f.(excluded := r.excluded)
  {
    var c := LowerChar(key);
    match board
    case ExtrasBoard => f.(extras := Flip(f.extras, c))
    case ExclusionBoard => f.(excluded := Flip(f.excluded, c))
  }

  /** Two clicks on the same key give back the original state. */
  lemma ToggleTwice(f: Form, board: Board, key: char)
    requires IsUpper(key)
    ensures Toggle(Toggle(f, board, key), board, key) == f
  {
    var c := LowerChar(key);
    var once := Toggle(f, board, key);
    var twice := Toggle(once, board, key);
    if board == ExtrasBoard {
      assert twice.extras == f.extras;
    } else {
      assert twice.excluded == f.excluded;
    }
  }

  /** "Add found-letters row": refused (`None`, an alert) unless the length
      is valid; otherwise one empty row as wide as the length is appended. */
  function AddRow(f: Form): (r: Option<Form>)
    ensures r.None? <==> !ValidSize(f.size)
    ensures r.Some? ==> r.value == f.(rows := f.rows + [FoundRow(f.size.value, {})])
  {
    if f.size.None? || f.size.value <= 0 then None
    else Some(f.(rows := f.rows + [FoundRow(f.size.value, {})]))
  }

  /** What the found-row handler keeps of an input value: trimmed, lower-cased,
      and accepted only as one letter `a`-`z`. */
  function ReadLetter(value: string): string {
    Lower(Strip(value))
  }

  /** Typing into an input of found-letters row `row`: a value that reads as
      one letter adds that letter to the row's set and to the extras set;
      anything else changes nothing. Nothing is ever removed. */
  function TypeFound(f: Form, row: nat, value: string): (r: Form)
    requires row < |f.rows|
    ensures |r.rows| == |f.rows| && r.excluded == f.excluded
    ensures r.size == f.size && r.placedInputs == f.placedInputs
    ensures r.incorrectInputs == f.incorrectInputs
    ensures forall k :: 0 <= k < |f.rows| ==>
              r.rows[k].width == f.rows[k].width && f.rows[k].letters <= r.rows[k].letters
    ensures forall k :: 0 <= k < |f.rows| && k != row ==> r.rows[k] == f.rows[k]
    ensures f.extras <= r.extras
    ensures IsLetter(ReadLetter(value)) ==>
              && r.rows[row].letters == f.rows[row].letters + {ReadLetter(value)[0]}
              && r.extras == f.extras + {ReadLetter(value)[0]}
    ensures !IsLetter(ReadLetter(value)) ==> r == f
  {
    var letra := ReadLetter(value);
    if |letra| > 0 && IsLetter(letra) then
      var c := letra[0];
      var current := f.rows[row];
      f.(rows := f.rows[row := current.(letters := current.letters + {c})],
         extras := f.extras + {c})
    else f
  }

  /** Typing into positioned input `i` stores the raw value there. */
  function TypePlaced(f: Form, i: nat, value: string): (r: Form)
    requires i < |f.placedInputs|
    ensures |r.placedInputs| == |f.placedInputs| && r.placedInputs[i] == value
    ensures forall j :: 0 <= j < |f.placedInputs| && j != i ==> r.placedInputs[j] == f.placedInputs[j]
    ensures r == f.(placedInputs := r.placedInputs)
  {
    f.(placedInputs := f.placedInputs[i := value])
  }

  /** Typing into misplaced-letter input `i` stores the raw value there. */
  function TypeIncorrect(f: Form, i: nat, value: string): (r: Form)
    requires i < |f.incorrectInputs|
    ensures |r.incorrectInputs| == |f.incorrectInputs| && r.incorrectInputs[i] == value
    ensures forall j :: 0 <= j < |f.incorrectInputs| && j != i ==>
              r.incorrectInputs[j] == f.incorrectInputs[j]
    ensures r == f.(incorrectInputs := r.incorrectInputs)
  {
    f.(incorrectInputs := f.incorrectInputs[i := value])
  }

  /** A user action on the page. `SizeTyped` is a keystroke in the length
      field: the field's value changes at once and its handler is scheduled;
      `SizeSettled` is that handler firing after the delay. `Click` names a
      key by its index in `Alphabet`; row and input indices name existing
      elements. */
  datatype Event =
    | Plus
    | Minus
    | SizeTyped(size: Option<int>)
    | SizeSettled
    | Click(board: Board, key: nat)
    | AddRowClicked
    | FoundTyped(row: nat, value: string)
    | PlacedTyped(index: nat, value: string)
    | IncorrectTyped(index: nat, value: string)

  /** One event on the page as written. No listener is attached to the
      "add found-letters row" button, so clicking it changes nothing and
      the page never has a found-letters row. An event naming an element the
      page does not have (a key past Z, a row or input that does not exist)
      cannot be produced by the page and leaves the state alone. */
  function Step(f: Form, e: Event): (r: Form)
    ensures e.AddRowClicked? ==> r == f
    ensures |r.rows| == |f.rows|
    ensures e.SizeTyped? ==> r == f.(size := e.size, pending := true)
    ensures !e.SizeTyped? && !e.SizeSettled? ==> r.pending == f.pending
  {
    match e
    case Plus => Increment(f)
    case Minus => Decrement(f)
    case SizeTyped(size) => f.(size := size, pending := true)
    case SizeSettled => if f.pending then EditSize(f.(pending := false), f.size) else f
    case Click(board, key) => if key < |Alphabet| then Toggle(f, board, Alphabet[key]) else f
    case AddRowClicked => f
    case FoundTyped(row, value) => if row < |f.rows| then TypeFound(f, row, value) else f
    case PlacedTyped(i, value) => if i < |f.placedInputs| then TypePlaced(f, i, value) else f
    case IncorrectTyped(i, value) => if i < |f.incorrectInputs| then TypeIncorrect(f, i, value) else f
  }

  /** One event on the page as evidently intended: the button calls
      `AddRow`; every other event is as in `Step`. */
  function WiredStep(f: Form, e: Event): (r: Form)
    ensures e.AddRowClicked? && ValidSize(f.size) ==>
              r == f.(rows := f.rows + [FoundRow(f.size.value, {})])
    ensures e.AddRowClicked? && !ValidSize(f.size) ==> r == f
    ensures !e.AddRowClicked? ==> r == Step(f, e)
  {
    if e.AddRowClicked? then AddRow(f).GetOr(f) else Step(f, e)
  }

  function Run(f: Form, events: seq<Event>): Form
    decreases |events|
  {
    if events == [] then f else Run(Step(f, events[0]), events[1..])
  }

  function WiredRun(f: Form, events: seq<Event>): Form
    decreases |events|
  {
    if events == [] then f else WiredRun(WiredStep(f, events[0]), events[1..])
  }

  /** On the page as written, no sequence of events ever creates a
      found-letters row. */
  lemma {:induction false} RunKeepsRows(f: Form, events: seq<Event>)
    ensures |Run(f, events).rows| == |f.rows|
    decreases |events|
  {
    if events != [] {
      RunKeepsRows(Step(f, events[0]), events[1..]);
    }
  }

  lemma NoRowsEver(size: Option<int>, events: seq<Event>)
    ensures Run(Init(size), events).rows == []
  {
    RunKeepsRows(Init(size), events);
  }

  /** With the button connected, a click at a valid length adds a row that
      a later keystroke can fill. */
  lemma WiredRowCanBeFilled(size: nat)
    requires size > 0
    ensures var f := WiredRun(Init(Some(size)), [AddRowClicked, FoundTyped(0, "e")]);
            |f.rows| == 1 && f.rows[0] == FoundRow(size, {'e'}) && f.extras == {'e'}
  {
    var f1 := WiredStep(Init(Some(size)), AddRowClicked);
    assert f1.rows == [FoundRow(size, {})];
    var e := FoundTyped(0, "e");
    ReadsAsLetter("e");
    assert WiredRun(Init(Some(size)), [AddRowClicked, e]) == WiredRun(f1, [e]);
    assert WiredRun(f1, [e]) == WiredStep(f1, e);
  }

  /** A one-letter lower-case value reads as itself. */
  lemma ReadsAsLetter(value: string)
    requires IsLetter(value)
    ensures ReadLetter(value) == value
  {
    StripFixed(value);
    LowerOfLetter(value);
  }

  /** Every selected letter is lower-case `a`-`z`. This holds of every state
      the page reaches. */
  predicate LowerLetters(f: Form) {
    && (forall c :: c in f.extras ==> IsLower(c))
    && (forall c :: c in f.excluded ==> IsLower(c))
    && (forall k, c :: 0 <= k < |f.rows| && c in f.rows[k].letters ==> IsLower(c))
  }

  /** Whenever the length is valid, both input rows have exactly that many
      inputs. */
  predicate Settled(f: Form) {
    ValidSize(f.size) ==> |f.placedInputs| == f.size.value && |f.incorrectInputs| == f.size.value
  }

  /** The invariant of the page: letters are lower-case, and the input rows
      agree with the length unless a typed length is still waiting for its
      handler. */
  predicate Consistent(f: Form) {
    LowerLetters(f) && (!f.pending ==> Settled(f))
  }

  lemma InitConsistent(size: Option<int>)
    ensures Consistent(Init(size)) && Settled(Init(size))
  {
  }

  /** Typing a shorter length leaves the old input rows in place until the
      handler fires, so the rows no longer agree with the field. */
  lemma TypedLengthUnsettles()
    ensures Consistent(Step(Init(Some(5)), SizeTyped(Some(3))))
    ensures !Settled(Step(Init(Some(5)), SizeTyped(Some(3))))
    ensures Settled(Run(Init(Some(5)), [SizeTyped(Some(3)), SizeSettled]))
  {
    var f := Step(Init(Some(5)), SizeTyped(Some(3)));
    assert |f.placedInputs| == 5;
    assert Run(Init(Some(5)), [SizeTyped(Some(3)), SizeSettled]) == Step(f, SizeSettled);
  }

  lemma AlphabetIsUpper(key: nat)
    requires key < |Alphabet|
    ensures IsUpper(Alphabet[key])
  {
  }

  lemma ToggleConsistent(f: Form, board: Board, key: char)
    requires Consistent(f) && IsUpper(key)
    ensures Consistent(Toggle(f, board, key))
  {
    var c := LowerChar(key);
    var r := Toggle(f, board, key);
    assert forall d :: d in r.extras ==> d in f.extras || d == c;
    assert forall d :: d in r.excluded ==> d in f.excluded || d == c;
  }

  lemma TypeFoundConsistent(f: Form, row: nat, value: string)
    requires Consistent(f) && row < |f.rows|
    ensures Consistent(TypeFound(f, row, value))
  {
    var r := TypeFound(f, row, value);
    if IsLetter(ReadLetter(value)) {
      var c := ReadLetter(value)[0];
      forall k, d | 0 <= k < |r.rows| && d in r.rows[k].letters
        ensures IsLower(d)
      {
        if k != row {
          assert r.rows[k] == f.rows[k];
        } else {
          assert d in f.rows[k].letters || d == c;
        }
      }
    }
  }

  /** Every event, on the page as written and as intended, keeps the
      invariant. */
  lemma StepConsistent(f: Form, e: Event)
    requires Consistent(f)
    ensures Consistent(Step(f, e)) && Consistent(WiredStep(f, e))
  {
    match e
    case Click(board, key) =>
      if key < |Alphabet| {
        AlphabetIsUpper(key);
        ToggleConsistent(f, board, Alphabet[key]);
      }
    case FoundTyped(row, value) =>
      if row < |f.rows| {
        TypeFoundConsistent(f, row, value);
      }
    case _ =>
  }

  /** Every state reached from a consistent one is consistent. */
  lemma {:induction false} RunConsistent(f: Form, events: seq<Event>)
    requires Consistent(f)
    ensures Consistent(Run(f, events))
    decreases |events|
  {
    if events != [] {
      StepConsistent(f, events[0]);
      RunConsistent(Step(f, events[0]), events[1..]);
    }
  }

  lemma {:induction false} WiredRunConsistent(f: Form, events: seq<Event>)
    requires Consistent(f)
    ensures Consistent(WiredRun(f, events))
    decreases |events|
  {
    if events != [] {
      StepConsistent(f, events[0]);
      WiredRunConsistent(WiredStep(f, events[0]), events[1..]);
    }
  }
}
