/** The `/filtrar` request handler (app.py): refuse the request when the word
    bank is empty, when the body is missing or falsy, when `tamanho_palavra` is
    not a positive integer, or when one of the four list fields is not a list;
    otherwise run the filter and answer with the number of candidates and the
    first hundred of them. `letras_incorretas` is carried by the request and
    never read. */
module Endpoint {
  import opened Options
  import opened WordFilter

  /** The JSON value found under `tamanho_palavra`. Python's `isinstance(v, int)`
      also accepts `true` and `false`, which count as 1 and 0; every other value
      (missing, null, a float, a string, ...) is `SizeOther`. */
  datatype SizeField = SizeInt(n: int) | SizeBool(b: bool) | SizeOther

  /** A list-valued field: absent from the body (read as `[]`), present as a
      JSON list, or present as anything else, null included. */
  datatype ListField<T> = Absent | Given(items: seq<T>) | NotAList

  /** A JSON object body with at least one key. */
  datatype Body = Body(
    size: SizeField,
    placed: ListField<Placed>,
    extras: ListField<string>,
    excluded: ListField<string>,
    found: ListField<seq<string>>,
    incorrect: ListField<Placed>)

  /** `NoData` is a body that `request.get_json()` reads as falsy: missing,
      `null`, or the empty object. */
  datatype Request = NoData | Data(body: Body)

  datatype Failure = NoWordBank | InvalidData | BadSize | NotLists

  datatype Response = Error(failure: Failure) | Answer(total: nat, words: seq<string>)

  /** The cap on the number of words listed in an answer. */
  const MaxListed: nat := 100

  function Message(f: Failure): string {
    match f
    case NoWordBank => "Banco de palavras não está disponível."
    case InvalidData => "Dados inválidos."
    case BadSize => "tamanho_palavra deve ser um inteiro positivo."
    case NotLists => "letras_posicionadas, letras_extras, letras_exclusao e letras_encontradas devem ser listas."
  }

  /** The HTTP status the handler pairs with each response. */
  function Status(r: Response): (code: int)
    ensures code == 200 <==> r.Answer?
    ensures r.Error? && r.failure == NoWordBank <==> code == 500
    ensures r.Error? && r.failure != NoWordBank <==> code == 400
  {
    match r
    case Answer(_, _) => 200
    case Error(NoWordBank) => 500
    case Error(_) => 400
  }

  /** The integer Python sees under `tamanho_palavra`, if it is one. */
  function SizeValue(f: SizeField): Option<int> {
    match f
    case SizeInt(n) => Some(n)
    case SizeBool(b) => Some(if b then 1 else 0)
    case SizeOther => None
  }

  /** `data.get(key, [])` for a field already known to be a list or absent. */
  function ItemsOr<T>(f: ListField<T>): seq<T> {
    if f.Given? then f.items else []
  }

  predicate ListsWellTyped(b: Body) {
    !b.placed.NotAList? && !b.extras.NotAList? && !b.excluded.NotAList? && !b.found.NotAList?
  }

  predicate SizeValid(b: Body) {
    SizeValue(b.size).Some? && SizeValue(b.size).value > 0
  }

  /** The query the handler passes to the filter. */
  function QueryOf(b: Body): (q: Query)
    requires SizeValid(b)
    ensures q.size == SizeValue(b.size).value > 0
    ensures b.placed.Absent? ==> q.placed == []
    ensures b.extras.Absent? ==> q.extras == []
    ensures b.excluded.Absent? ==> q.excluded == []
    ensures b.found.Absent? ==> q.found == []
    ensures b.placed.Given? ==> q.placed == b.placed.items
    ensures b.extras.Given? ==> q.extras == b.extras.items
    ensures b.excluded.Given? ==> q.excluded == b.excluded.items
    ensures b.found.Given? ==> q.found == b.found.items
  {
    Query(SizeValue(b.size).value, ItemsOr(b.placed), ItemsOr(b.extras),
          ItemsOr(b.excluded), ItemsOr(b.found))
  }

  function Min(a: nat, b: nat): nat { if a <= b then a else b }

  /** The handler. The validations run in the source's order, so the first
      failing one names the error; an accepted request is answered with the
      full candidate count and the candidates' leading prefix of at most
      `MaxListed` words. */
  function Handle(db: seq<string>, req: Request): (r: Response)
    ensures r == Error(NoWordBank) <==> db == []
    ensures r == Error(InvalidData) <==> db != [] && req.NoData?
    ensures r == Error(BadSize) <==> db != [] && req.Data? && !SizeValid(req.body)
    ensures r == Error(NotLists) <==>
              db != [] && req.Data? && SizeValid(req.body) && !ListsWellTyped(req.body)
    ensures r.Answer? ==>
              && req.Data? && SizeValid(req.body)
              && r.total == |Candidates(db, QueryOf(req.body))|
              && |r.words| == Min(MaxListed, r.total)
              && r.words <= Candidates(db, QueryOf(req.body))
  {
    if db == [] then Error(NoWordBank)
    else if req.NoData? then Error(InvalidData)
    else if !SizeValid(req.body) then Error(BadSize)
    else if !ListsWellTyped(req.body) then Error(NotLists)
    else
      var candidates := Candidates(db, QueryOf(req.body));
      Answer(|candidates|, candidates[..Min(MaxListed, |candidates|)])
  }

  /** Every listed word has the requested length and passes every check. */
  lemma AnsweredWordsMatch(db: seq<string>, req: Request, w: string)
    requires Handle(db, req).Answer? && w in Handle(db, req).words
    ensures w in db && |w| == SizeValue(req.body.size).value
    ensures Matches(w, QueryOf(req.body))
  {
    var c := Candidates(db, QueryOf(req.body));
    var k :| 0 <= k < |Handle(db, req).words| && Handle(db, req).words[k] == w;
    assert c[k] == w;
    CandidatesFromBank(db, QueryOf(req.body), k);
  }

  /** When there are at most `MaxListed` candidates, the answer lists all of
      them, so a word of the bank that matches is listed. */
  lemma SmallAnswerIsComplete(db: seq<string>, req: Request, j: nat)
    requires Handle(db, req).Answer? && Handle(db, req).total <= MaxListed
    requires j < |db| && Matches(db[j], QueryOf(req.body))
    ensures db[j] in Handle(db, req).words
  {
    CandidatesComplete(db, QueryOf(req.body), j);
  }

  /** The response does not depend on `letras_incorretas`. */
  lemma IncorrectIsIgnored(db: seq<string>, b: Body, other: ListField<Placed>)
    ensures Handle(db, Data(b.(incorrect := other))) == Handle(db, Data(b))
  {
  }

  /** The status of a handled request: 400 exactly when the bank is loaded
      and the request fails validation, 200 exactly when it passes. */
  lemma HandleStatus(db: seq<string>, req: Request)
    ensures Status(Handle(db, req)) == 400 <==>
              db != [] && (req.NoData? || !SizeValid(req.body) || !ListsWellTyped(req.body))
    ensures Status(Handle(db, req)) == 200 <==>
              db != [] && req.Data? && SizeValid(req.body) && ListsWellTyped(req.body)
  {
  }

  /** The handler's ordering of checks: an empty word bank is reported even
      for a request with no body. */
  lemma EmptyBankFirst(req: Request)
    ensures Handle([], req) == Error(NoWordBank) && Status(Handle([], req)) == 500
  {
  }
}
