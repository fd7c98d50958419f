/** The server-side word filter (`filtrar_palavras` in app.py): keep the words of
    the word bank that have the requested length, carry every positioned letter
    at its index, contain every extra letter and every letter of every
    found-letters row, and contain no excluded letter. The filter is stated
    twice: `Matches` is the declarative predicate, `FilterWords` walks the
    bank with the early-exit loops of the source, and the two are proved equal
    through the reference selection `Candidates`. */
module WordFilter {
  import opened Options
  import opened Text

  /** One `{letra, posicao}` entry of `letras_posicionadas`. A missing
      `letra` key is the empty string; a missing or null `posicao` is `None`. */
  datatype Placed = Placed(letra: string, posicao: Option<int>)

  /** The arguments of `filtrar_palavras` other than the word bank. */
  datatype Query = Query(
    size: int,
    placed: seq<Placed>,
    extras: seq<string>,
    excluded: seq<string>,
    found: seq<seq<string>>)

  /** Check 2 for one entry: the position exists and lies inside the word
      length, and the word's character there equals the lower-cased `letra`
      (a one-character string compared with a string, so an empty or longer
      `letra` never fits). */
  predicate PlacedFits(w: string, p: Placed, size: int) {
    && p.posicao.Some?
    && 0 <= p.posicao.value < size
    && p.posicao.value < |w|
    && Lower(p.letra) == [w[p.posicao.value]]
  }

  predicate FitsPlaced(w: string, q: Query) {
    forall k :: 0 <= k < |q.placed| ==> PlacedFits(w, q.placed[k], q.size)
  }

  predicate FitsExtras(w: string, q: Query) {
    forall k :: 0 <= k < |q.extras| ==> Contains(w, Lower(q.extras[k]))
  }

  predicate AvoidsExcluded(w: string, q: Query) {
    forall k :: 0 <= k < |q.excluded| ==> !Contains(w, Lower(q.excluded[k]))
  }

  predicate FitsFoundRow(w: string, row: seq<string>) {
    forall k :: 0 <= k < |row| ==> Contains(w, Lower(row[k]))
  }

  predicate FitsFound(w: string, q: Query) {
    forall r :: 0 <= r < |q.found| ==> FitsFoundRow(w, q.found[r])
  }

  /** The five conditions of the filter, in the order the source checks them. */
  predicate Matches(w: string, q: Query) {
    && |w| == q.size
    && FitsPlaced(w, q)
    && FitsExtras(w, q)
    && AvoidsExcluded(w, q)
    && FitsFound(w, q)
  }

  /** The reference selection: the words of `db` that match, in bank order. */
  function Candidates(db: seq<string>, q: Query): (r: seq<string>)
    ensures |r| <= |db|
    ensures forall k :: 0 <= k < |r| ==> Matches(r[k], q)
    decreases |db|
  {
    if |db| == 0 then []
    else
      var before := Candidates(db[..|db| - 1], q);
      if Matches(db[|db| - 1], q) then before + [db[|db| - 1]] else before
  }

  /** The indices of the matching words, strictly increasing, and exactly the
      indices whose word matches. */
  function MatchingIndices(db: seq<string>, q: Query): (r: seq<nat>)
    ensures forall k :: 0 <= k < |r| ==> r[k] < |db|
    ensures forall k, l :: 0 <= k < l < |r| ==> r[k] < r[l]
    ensures forall j :: 0 <= j < |db| ==> (j in r <==> Matches(db[j], q))
    decreases |db|
  {
    if |db| == 0 then []
    else
      var before := MatchingIndices(db[..|db| - 1], q);
      if Matches(db[|db| - 1], q) then before + [|db| - 1] else before
  }

  /** Completeness and order together: the selection is exactly the words at
      the matching indices, listed in increasing index order. */
  lemma {:induction false} CandidatesAreMatchingIndices(db: seq<string>, q: Query)
    ensures |Candidates(db, q)| == |MatchingIndices(db, q)|
    ensures forall k :: 0 <= k < |Candidates(db, q)| ==>
              Candidates(db, q)[k] == db[MatchingIndices(db, q)[k]]
    decreases |db|
  {
    if |db| > 0 {
      var prefix := db[..|db| - 1];
      var last := db[|db| - 1];
      CandidatesAreMatchingIndices(prefix, q);
      var c0 := Candidates(prefix, q);
      var i0 := MatchingIndices(prefix, q);
      assert forall k :: 0 <= k < |c0| ==> c0[k] == db[i0[k]];
      if Matches(last, q) {
        assert Candidates(db, q) == c0 + [last];
        assert MatchingIndices(db, q) == i0 + [|db| - 1];
      } else {
        assert Candidates(db, q) == c0;
        assert MatchingIndices(db, q) == i0;
      }
    }
  }

  /** Every matching word of the bank is selected. */
  lemma CandidatesComplete(db: seq<string>, q: Query, j: nat)
    requires j < |db| && Matches(db[j], q)
    ensures db[j] in Candidates(db, q)
  {
    CandidatesAreMatchingIndices(db, q);
    var idx := MatchingIndices(db, q);
    var k :| 0 <= k < |idx| && idx[k] == j;
    assert Candidates(db, q)[k] == db[j];
  }

  /** Every selected word comes from the bank. */
  lemma CandidatesFromBank(db: seq<string>, q: Query, k: nat)
    requires k < |Candidates(db, q)|
    ensures Candidates(db, q)[k] in db
  {
    CandidatesAreMatchingIndices(db, q);
  }

  /** Every word the filter returns has exactly the requested length. */
  lemma CandidatesHaveSize(db: seq<string>, q: Query, w: string)
    requires w in Candidates(db, q)
    ensures |w| == q.size
  {
  }

  /** When no word at all can match, the selection is empty. */
  lemma {:induction false} NothingMatchesSelectsNothing(db: seq<string>, q: Query)
    requires forall w :: !Matches(w, q)
    ensures Candidates(db, q) == []
    decreases |db|
  {
    if |db| > 0 {
      NothingMatchesSelectsNothing(db[..|db| - 1], q);
      assert !Matches(db[|db| - 1], q);
    }
  }

  /** An entry whose position is missing, negative, or not below the word
      length fails for every word, so nothing is selected. */
  lemma BadPositionSelectsNothing(db: seq<string>, q: Query, k: nat)
    requires k < |q.placed|
    requires q.placed[k].posicao.None?
          || q.placed[k].posicao.value < 0
          || q.placed[k].posicao.value >= q.size
    ensures Candidates(db, q) == []
  {
    forall w: string
      ensures !Matches(w, q)
    {
      assert !PlacedFits(w, q.placed[k], q.size);
    }
    NothingMatchesSelectsNothing(db, q);
  }

  /** A letter required (as an extra) and excluded at once leaves no word. */
  lemma ExtraAndExcludedSelectsNothing(db: seq<string>, q: Query, i: nat, j: nat)
    requires i < |q.extras| && j < |q.excluded|
    requires Lower(q.extras[i]) == Lower(q.excluded[j])
    ensures Candidates(db, q) == []
  {
    forall w: string
      ensures !Matches(w, q)
    {
      if FitsExtras(w, q) {
        assert Contains(w, Lower(q.extras[i]));
      }
    }
    NothingMatchesSelectsNothing(db, q);
  }

  /** A letter of a found-letters row that is also excluded leaves no word. */
  lemma FoundAndExcludedSelectsNothing(db: seq<string>, q: Query, r: nat, i: nat, j: nat)
    requires r < |q.found| && i < |q.found[r]| && j < |q.excluded|
    requires Lower(q.found[r][i]) == Lower(q.excluded[j])
    ensures Candidates(db, q) == []
  {
    forall w: string
      ensures !Matches(w, q)
    {
      if FitsFound(w, q) {
        assert FitsFoundRow(w, q.found[r]);
        assert Contains(w, Lower(q.found[r][i]));
      }
    }
    NothingMatchesSelectsNothing(db, q);
  }

  /** Python's `"" in palavra` is always true, so an empty string in the
      exclusion list rejects every word. */
  lemma EmptyExclusionSelectsNothing(db: seq<string>, q: Query, j: nat)
    requires j < |q.excluded| && q.excluded[j] == ""
    ensures Candidates(db, q) == []
  {
    forall w: string
      ensures !Matches(w, q)
    {
      ContainsEmpty(w);
      assert Lower(q.excluded[j]) == "";
    }
    NothingMatchesSelectsNothing(db, q);
  }

  /** Two queries that ask for the same things: same length, the same
      positioned entries, and the same extra, excluded and found letters as
      collections, whatever their order, repetition or grouping into rows. */
  ghost predicate SameConstraints(q1: Query, q2: Query) {
    && q1.size == q2.size
    && (forall p :: p in q1.placed <==> p in q2.placed)
    && (forall s :: s in q1.extras <==> s in q2.extras)
    && (forall s :: s in q1.excluded <==> s in q2.excluded)
    && (forall s :: InSomeRow(s, q1.found) <==> InSomeRow(s, q2.found))
  }

  predicate InSomeRow(s: string, rows: seq<seq<string>>) {
    exists r :: 0 <= r < |rows| && s in rows[r]
  }

  lemma SameConstraintsSameVerdict(w: string, q1: Query, q2: Query)
    requires SameConstraints(q1, q2)
    ensures Matches(w, q1) <==> Matches(w, q2)
  {
    FoundAsMembership(w, q1);
    FoundAsMembership(w, q2);
    PlacedAsMembership(w, q1);
    PlacedAsMembership(w, q2);
    LettersAsMembership(w, q1.extras);
    LettersAsMembership(w, q2.extras);
    LettersAsMembership(w, q1.excluded);
    LettersAsMembership(w, q2.excluded);
  }

  lemma LettersAsMembership(w: string, letters: seq<string>)
    ensures (forall k :: 0 <= k < |letters| ==> Contains(w, Lower(letters[k])))
        <==> (forall s :: s in letters ==> Contains(w, Lower(s)))
    ensures (forall k :: 0 <= k < |letters| ==> !Contains(w, Lower(letters[k])))
        <==> (forall s :: s in letters ==> !Contains(w, Lower(s)))
  {
  }

  lemma PlacedAsMembership(w: string, q: Query)
    ensures FitsPlaced(w, q) <==> forall p :: p in q.placed ==> PlacedFits(w, p, q.size)
  {
  }

  lemma FoundAsMembership(w: string, q: Query)
    ensures FitsFound(w, q) <==> forall s :: InSomeRow(s, q.found) ==> Contains(w, Lower(s))
  {
    if FitsFound(w, q) {
      forall s | InSomeRow(s, q.found)
        ensures Contains(w, Lower(s))
      {
        var r :| 0 <= r < |q.found| && s in q.found[r];
        assert FitsFoundRow(w, q.found[r]);
      }
    }
    if forall s :: InSomeRow(s, q.found) ==> Contains(w, Lower(s)) {
      forall r | 0 <= r < |q.found|
        ensures FitsFoundRow(w, q.found[r])
      {
        forall k | 0 <= k < |q.found[r]|
          ensures Contains(w, Lower(q.found[r][k]))
        {
          assert InSomeRow(q.found[r][k], q.found);
        }
      }
    }
  }

  /** The order in which the client happens to list its letter sets does not
      change the selection. */
  lemma {:induction false} SameConstraintsSameCandidates(db: seq<string>, q1: Query, q2: Query)
    requires SameConstraints(q1, q2)
    ensures Candidates(db, q1) == Candidates(db, q2)
    decreases |db|
  {
    if |db| > 0 {
      SameConstraintsSameCandidates(db[..|db| - 1], q1, q2);
      SameConstraintsSameVerdict(db[|db| - 1], q1, q2);
    }
  }

  /** Check 2 of the source: walk the positioned entries, stopping at the
      first one that fails. */
  method CheckPlaced(w: string, items: seq<Placed>, size: int) returns (ok: bool)
    requires |w| == size
    ensures ok <==> forall k :: 0 <= k < |items| ==> PlacedFits(w, items[k], size)
  {
    ok := true;
    var k := 0;
    while k < |items|
      invariant 0 <= k <= |items|
      invariant forall j :: 0 <= j < k ==> PlacedFits(w, items[j], size)
    {
      var letra := Lower(items[k].letra);
      var posicao := items[k].posicao;
      if posicao.None? || posicao.value < 0 || posicao.value >= size {
        ok := false;
        break;
      }
      if [w[posicao.value]] != letra {
        ok := false;
        break;
      }
      k := k + 1;
    }
  }

  /** Check 3: every extra letter occurs in the word. */
  method CheckAllPresent(w: string, letters: seq<string>) returns (ok: bool)
    ensures ok <==> forall k :: 0 <= k < |letters| ==> Contains(w, Lower(letters[k]))
  {
    ok := true;
    var k := 0;
    while k < |letters|
      invariant 0 <= k <= |letters|
      invariant forall j :: 0 <= j < k ==> Contains(w, Lower(letters[j]))
    {
      if !Contains(w, Lower(letters[k])) {
        ok := false;
        break;
      }
      k := k + 1;
    }
  }

  /** Check 4: some excluded letter occurs in the word. */
  method CheckAnyPresent(w: string, letters: seq<string>) returns (hit: bool)
    ensures hit <==> exists k :: 0 <= k < |letters| && Contains(w, Lower(letters[k]))
  {
    hit := false;
    var k := 0;
    while k < |letters|
      invariant 0 <= k <= |letters|
      invariant forall j :: 0 <= j < k ==> !Contains(w, Lower(letters[j]))
    {
      if Contains(w, Lower(letters[k])) {
        hit := true;
        break;
      }
      k := k + 1;
    }
  }

  /** Check 5: the nested walk over the found-letters rows, leaving both loops
      at the first letter missing from the word. */
  method CheckFound(w: string, rows: seq<seq<string>>) returns (ok: bool)
    ensures ok <==> forall r :: 0 <= r < |rows| ==> FitsFoundRow(w, rows[r])
  {
    ok := true;
    var r := 0;
    while r < |rows|
      invariant 0 <= r <= |rows|
      invariant ok
      invariant forall j :: 0 <= j < r ==> FitsFoundRow(w, rows[j])
    {
      var row := rows[r];
      var k := 0;
      while k < |row|
        invariant 0 <= k <= |row|
        invariant ok
        invariant forall j :: 0 <= j < k ==> Contains(w, Lower(row[j]))
      {
        if !Contains(w, Lower(row[k])) {
          ok := false;
          break;
        }
        k := k + 1;
      }
      if !ok {
        break;
      }
      r := r + 1;
    }
  }

  /** `filtrar_palavras`: one pass over the bank, skipping a word at the
      first check it fails and appending it otherwise. */
  method FilterWords(db: seq<string>, q: Query) returns (r: seq<string>)
    ensures r == Candidates(db, q)
  {
    r := [];
    var i := 0;
    while i < |db|
      invariant 0 <= i <= |db|
      invariant r == Candidates(db[..i], q)
    {
      var w := db[i];
      assert db[..i + 1][..i] == db[..i];
      if |w| != q.size {
        i := i + 1;
        continue;
      }
      var fitsPlaced := CheckPlaced(w, q.placed, q.size);
      if !fitsPlaced {
        i := i + 1;
        continue;
      }
      var fitsExtras := CheckAllPresent(w, q.extras);
      if !fitsExtras {
        i := i + 1;
        continue;
      }
      var hasExcluded := CheckAnyPresent(w, q.excluded);
      if hasExcluded {
        i := i + 1;
        continue;
      }
      var fitsFound := CheckFound(w, q.found);
      if !fitsFound {
        i := i + 1;
        continue;
      }
      r := r + [w];
      i := i + 1;
    }
    assert db[..|db|] == db;
  }
}
