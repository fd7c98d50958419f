/** The request as it travels from the page to `/filtrar`: the payload the
    page collects, serialised with its letter sets listed in some order, is
    the body the handler reads. The lemmas here follow a form through the
    handler and the filter. */
module Wire {
  import opened Options
  import opened Text
  import opened WordFilter
  import opened Endpoint
  import opened FormState
  import opened Dispatch

  /** `xs` lists exactly the letters of `s` (the order `Array.from` picks). */
  predicate Enumerates(xs: seq<char>, s: set<char>) {
    forall c :: c in xs <==> c in s
  }

  predicate EnumeratesRows(rows: seq<seq<char>>, sets: seq<set<char>>) {
    |rows| == |sets| && forall k :: 0 <= k < |rows| ==> Enumerates(rows[k], sets[k])
  }

  /** Each letter becomes a one-character JSON string. */
  function Letters(xs: seq<char>): (r: seq<string>)
    ensures |r| == |xs|
    ensures forall i :: 0 <= i < |xs| ==> r[i] == [xs[i]]
  {
    seq(|xs|, i requires 0 <= i < |xs| => [xs[i]])
  }

  function LetterRows(rows: seq<seq<char>>): (r: seq<seq<string>>)
    ensures |r| == |rows|
    ensures forall k :: 0 <= k < |rows| ==> r[k] == Letters(rows[k])
  {
    seq(|rows|, k requires 0 <= k < |rows| => Letters(rows[k]))
  }

  function Entries(es: seq<Entry>): (r: seq<Placed>)
    ensures |r| == |es|
    ensures forall k :: 0 <= k < |es| ==> r[k] == Placed(es[k].letra, Some(es[k].posicao))
  {
    seq(|es|, k requires 0 <= k < |es| => Placed(es[k].letra, Some(es[k].posicao)))
  }

  /** `JSON.stringify(payload)` as the handler reads it back, with the sets
      listed in the orders `ex`, `exc` and `rows`. */
  function ToBody(p: Payload, ex: seq<char>, exc: seq<char>, rows: seq<seq<char>>): (b: Body)
    ensures ListsWellTyped(b)
    ensures p.size > 0 ==> SizeValid(b) && SizeValue(b.size).value == p.size
    ensures b.incorrect == Given(Entries(p.incorrect))
  {
    Body(SizeInt(p.size), Given(Entries(p.placed)), Given(Letters(ex)), Given(Letters(exc)),
         Given(LetterRows(rows)), Given(Entries(p.incorrect)))
  }

  /** The listing orders are faithful to the payload's sets. */
  predicate Serialises(p: Payload, ex: seq<char>, exc: seq<char>, rows: seq<seq<char>>) {
    Enumerates(ex, p.extras) && Enumerates(exc, p.excluded) && EnumeratesRows(rows, p.found)
  }

  /** A request the page sends always passes the handler's validation. */
  lemma SentRequestIsAnswered(db: seq<string>, f: Form, ex: seq<char>, exc: seq<char>, rows: seq<seq<char>>)
    requires db != [] && Collect(f).Send?
    ensures Handle(db, Data(ToBody(Collect(f).payload, ex, exc, rows))).Answer?
  {
  }

  lemma LettersMembership(xs: seq<char>, s: string)
    ensures s in Letters(xs) <==> |s| == 1 && s[0] in xs
  {
    if |s| == 1 && s[0] in xs {
      var i :| 0 <= i < |xs| && xs[i] == s[0];
      assert Letters(xs)[i] == s;
    }
  }

  lemma RowsMembership(p: Payload, rows: seq<seq<char>>, s: string)
    requires EnumeratesRows(rows, p.found)
    ensures InSomeRow(s, LetterRows(rows)) <==>
              |s| == 1 && exists k :: 0 <= k < |p.found| && s[0] in p.found[k]
  {
    if InSomeRow(s, LetterRows(rows)) {
      var k :| 0 <= k < |rows| && s in LetterRows(rows)[k];
      LettersMembership(rows[k], s);
    }
    if |s| == 1 && exists k :: 0 <= k < |p.found| && s[0] in p.found[k] {
      var k :| 0 <= k < |p.found| && s[0] in p.found[k];
      LettersMembership(rows[k], s);
      assert s in LetterRows(rows)[k];
    }
  }

  /** The order in which the page lists its sets does not change the answer. */
  lemma ListingOrderIrrelevant(db: seq<string>, p: Payload,
                               ex1: seq<char>, exc1: seq<char>, rows1: seq<seq<char>>,
                               ex2: seq<char>, exc2: seq<char>, rows2: seq<seq<char>>)
    requires Serialises(p, ex1, exc1, rows1) && Serialises(p, ex2, exc2, rows2)
    ensures Handle(db, Data(ToBody(p, ex1, exc1, rows1))) == Handle(db, Data(ToBody(p, ex2, exc2, rows2)))
  {
    var b1 := ToBody(p, ex1, exc1, rows1);
    var b2 := ToBody(p, ex2, exc2, rows2);
    if db != [] && SizeValid(b1) {
      var q1 := QueryOf(b1);
      var q2 := QueryOf(b2);
      forall s
        ensures s in q1.extras <==> s in q2.extras
        ensures s in q1.excluded <==> s in q2.excluded
        ensures InSomeRow(s, q1.found) <==> InSomeRow(s, q2.found)
      {
        LettersMembership(ex1, s);
        LettersMembership(ex2, s);
        LettersMembership(exc1, s);
        LettersMembership(exc2, s);
        RowsMembership(p, rows1, s);
        RowsMembership(p, rows2, s);
      }
      assert SameConstraints(q1, q2);
      SameConstraintsSameCandidates(db, q1, q2);
    }
  }

  /** A letter selected on both keyboards empties the answer. */
  lemma BothKeyboardsGiveNothing(db: seq<string>, f: Form, c: char,
                                 ex: seq<char>, exc: seq<char>, rows: seq<seq<char>>)
    requires db != [] && Collect(f).Send?
    requires Serialises(Collect(f).payload, ex, exc, rows)
    requires c in f.extras && c in f.excluded
    ensures Handle(db, Data(ToBody(Collect(f).payload, ex, exc, rows))) == Answer(0, [])
  {
    var b := ToBody(Collect(f).payload, ex, exc, rows);
    var q := QueryOf(b);
    var i :| 0 <= i < |ex| && ex[i] == c;
    var j :| 0 <= j < |exc| && exc[j] == c;
    assert q.extras[i] == [c] && q.excluded[j] == [c];
    ExtraAndExcludedSelectsNothing(db, q, i, j);
  }

  /** When every letter of the form is lower-case, the letters sent are lower-case, so the server's
      `lower()` leaves them as they are. */
  lemma SentLetterUnchanged(c: char)
    requires IsLower(c)
    ensures Lower([c]) == [c]
  {
    LowerOfLetter([c]);
  }

  /** What every listed word owes the form it answers, stated on characters:
      the length, each positioned letter at its index, every extra and every
      found letter somewhere, no excluded letter anywhere. */
  predicate FitsForm(w: string, p: Payload) {
    && |w| == p.size
    && (forall k :: 0 <= k < |p.placed| ==>
          p.placed[k].posicao < |w| && p.placed[k].letra == [w[p.placed[k].posicao]])
    && (forall c :: c in p.extras ==> c in w)
    && (forall c :: c in p.excluded ==> c !in w)
    && (forall k, c :: 0 <= k < |p.found| && c in p.found[k] ==> c in w)
  }

  /** Every letter of the form is lower-case. */
  predicate LowerPayload(p: Payload) {
    && (forall c :: c in p.extras ==> IsLower(c))
    && (forall c :: c in p.excluded ==> IsLower(c))
    && (forall k, c :: 0 <= k < |p.found| && c in p.found[k] ==> IsLower(c))
  }

  lemma ConsistentPayloadIsLower(f: Form)
    requires LowerLetters(f) && Collect(f).Send?
    ensures LowerPayload(Collect(f).payload)
  {
  }

  /** The server's check on a listed set, read back on characters: every
      letter of the set occurs in the word. */
  lemma ListedLettersPresent(w: string, xs: seq<char>, s: set<char>)
    requires Enumerates(xs, s) && forall c :: c in s ==> IsLower(c)
    requires forall k :: 0 <= k < |Letters(xs)| ==> Contains(w, Lower(Letters(xs)[k]))
    ensures forall c :: c in s ==> c in w
  {
    forall c | c in s
      ensures c in w
    {
      var i :| 0 <= i < |xs| && xs[i] == c;
      assert Contains(w, Lower(Letters(xs)[i]));
      SentLetterUnchanged(c);
      ContainsChar(w, c);
    }
  }

  /** And for the excluded set: no letter of the set occurs in the word. */
  lemma ListedLettersAbsent(w: string, xs: seq<char>, s: set<char>)
    requires Enumerates(xs, s) && forall c :: c in s ==> IsLower(c)
    requires forall k :: 0 <= k < |Letters(xs)| ==> !Contains(w, Lower(Letters(xs)[k]))
    ensures forall c :: c in s ==> c !in w
  {
    forall c | c in s
      ensures c !in w
    {
      var i :| 0 <= i < |xs| && xs[i] == c;
      assert !Contains(w, Lower(Letters(xs)[i]));
      SentLetterUnchanged(c);
      ContainsChar(w, c);
    }
  }

  lemma PlacedEntriesFit(w: string, p: Payload, q: Query)
    requires q.placed == Entries(p.placed) && FitsPlaced(w, q)
    requires forall k :: 0 <= k < |p.placed| ==> IsLetter(p.placed[k].letra)
    ensures forall k :: 0 <= k < |p.placed| ==>
              p.placed[k].posicao < |w| && p.placed[k].letra == [w[p.placed[k].posicao]]
  {
    forall k | 0 <= k < |p.placed|
      ensures p.placed[k].posicao < |w| && p.placed[k].letra == [w[p.placed[k].posicao]]
    {
      assert PlacedFits(w, q.placed[k], q.size);
      LowerOfLetter(p.placed[k].letra);
    }
  }

  /** A word that passes the server's checks on the serialised payload fits
      the payload, read on characters. */
  lemma MatchingWordFitsForm(w: string, p: Payload, ex: seq<char>, exc: seq<char>, rows: seq<seq<char>>)
    requires Serialises(p, ex, exc, rows) && LowerPayload(p) && p.size > 0
    requires forall k :: 0 <= k < |p.placed| ==> IsLetter(p.placed[k].letra)
    requires Matches(w, QueryOf(ToBody(p, ex, exc, rows)))
    ensures FitsForm(w, p)
  {
    var q := QueryOf(ToBody(p, ex, exc, rows));
    PlacedEntriesFit(w, p, q);
    ListedLettersPresent(w, ex, p.extras);
    ListedLettersAbsent(w, exc, p.excluded);
    forall k | 0 <= k < |p.found|
      ensures forall c :: c in p.found[k] ==> c in w
    {
      assert FitsFoundRow(w, q.found[k]);
      ListedLettersPresent(w, rows[k], p.found[k]);
    }
  }

  /** End to end: a word listed in the answer to the page's request fits the
      form the user filled in. */
  lemma AnsweredWordsFitForm(db: seq<string>, f: Form, ex: seq<char>, exc: seq<char>,
                             rows: seq<seq<char>>, w: string)
    requires LowerLetters(f)
    requires Collect(f).Send? && Serialises(Collect(f).payload, ex, exc, rows)
    requires Handle(db, Data(ToBody(Collect(f).payload, ex, exc, rows))).Answer?
    requires w in Handle(db, Data(ToBody(Collect(f).payload, ex, exc, rows))).words
    ensures FitsForm(w, Collect(f).payload)
  {
    var p := Collect(f).payload;
    AnsweredWordsMatch(db, Data(ToBody(p, ex, exc, rows)), w);
    ConsistentPayloadIsLower(f);
    assert p.placed == CollectPlaced(f.placedInputs);
    MatchingWordFitsForm(w, p, ex, exc, rows);
  }

  /** Conversely, a word that fits the payload, read on characters, passes
      the server's checks on the serialised payload. */
  lemma FitsFormMatches(w: string, p: Payload, ex: seq<char>, exc: seq<char>, rows: seq<seq<char>>)
    requires Serialises(p, ex, exc, rows) && LowerPayload(p) && p.size > 0
    requires forall k :: 0 <= k < |p.placed| ==> IsLetter(p.placed[k].letra)
    requires FitsForm(w, p)
    ensures Matches(w, QueryOf(ToBody(p, ex, exc, rows)))
  {
    var q := QueryOf(ToBody(p, ex, exc, rows));
    forall k | 0 <= k < |q.placed|
      ensures PlacedFits(w, q.placed[k], q.size)
    {
      LowerOfLetter(p.placed[k].letra);
    }
    forall k | 0 <= k < |q.extras|
      ensures Contains(w, Lower(q.extras[k]))
    {
      SentLetterUnchanged(ex[k]);
      ContainsChar(w, ex[k]);
    }
    forall k | 0 <= k < |q.excluded|
      ensures !Contains(w, Lower(q.excluded[k]))
    {
      SentLetterUnchanged(exc[k]);
      ContainsChar(w, exc[k]);
    }
    forall r | 0 <= r < |q.found|
      ensures FitsFoundRow(w, q.found[r])
    {
      forall k | 0 <= k < |q.found[r]|
        ensures Contains(w, Lower(q.found[r][k]))
      {
        assert q.found[r][k] == [rows[r][k]];
        SentLetterUnchanged(rows[r][k]);
        ContainsChar(w, rows[r][k]);
      }
    }
  }

  /** End to end, the other way: when the answer has at most `MaxListed`
      candidates, every bank word that fits the form is listed. */
  lemma FittingWordsAreListed(db: seq<string>, f: Form, ex: seq<char>, exc: seq<char>,
                              rows: seq<seq<char>>, j: nat)
    requires LowerLetters(f)
    requires Collect(f).Send? && Serialises(Collect(f).payload, ex, exc, rows)
    requires Handle(db, Data(ToBody(Collect(f).payload, ex, exc, rows))).Answer?
    requires Handle(db, Data(ToBody(Collect(f).payload, ex, exc, rows))).total <= MaxListed
    requires j < |db| && FitsForm(db[j], Collect(f).payload)
    ensures db[j] in Handle(db, Data(ToBody(Collect(f).payload, ex, exc, rows))).words
  {
    var p := Collect(f).payload;
    ConsistentPayloadIsLower(f);
    FitsFormMatches(db[j], p, ex, exc, rows);
    SmallAnswerIsComplete(db, Data(ToBody(p, ex, exc, rows)), j);
  }

  /** A positioned entry at or past the sent length, as the page sends while
      a typed shorter length waits for its handler, fails every word: the
      answer is empty. */
  lemma StalePositionEmptiesAnswer(db: seq<string>, p: Payload, ex: seq<char>, exc: seq<char>,
                                   rows: seq<seq<char>>, k: nat)
    requires db != [] && p.size > 0
    requires k < |p.placed| && p.placed[k].posicao >= p.size
    ensures Handle(db, Data(ToBody(p, ex, exc, rows))) == Answer(0, [])
  {
    var q := QueryOf(ToBody(p, ex, exc, rows));
    BadPositionSelectsNothing(db, q, k);
  }
}
