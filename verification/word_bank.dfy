/** The line normalisation of `carregar_palavras_arquivo` (app.py): every line
    of the word file is stripped and lower-cased, and lines that are blank
    once stripped are dropped. Opening and reading the file is not modelled;
    the file arrives as its sequence of lines. */
module WordBank {
  import opened Text

  /** A line `strip()` reduces to the empty string, that is, a line of
      whitespace only. */
  predicate IsBlank(line: string) {
    forall i :: 0 <= i < |line| ==> IsSpace(line[i])
  }

  /** A loaded word: non-empty, no surrounding whitespace, no ASCII capital. */
  predicate IsNormalWord(w: string) {
    && w != ""
    && !IsSpace(w[0])
    && !IsSpace(w[|w| - 1])
    && forall i :: 0 <= i < |w| ==> !IsUpper(w[i])
  }

  function Normalize(line: string): string {
    Lower(Strip(line))
  }

  /** The loaded word list: each line that is not blank, stripped and
      lower-cased, in file order. */
  function LoadWords(lines: seq<string>): (r: seq<string>)
    ensures |r| <= |lines|
    ensures forall k :: 0 <= k < |r| ==> IsNormalWord(r[k])
    decreases |lines|
  {
    if |lines| == 0 then []
    else
      var before := LoadWords(lines[..|lines| - 1]);
      var last := lines[|lines| - 1];
      if IsBlank(last) then before
      else
        NormalizedIsNormal(last);
        before + [Normalize(last)]
  }

  lemma NormalizedIsNormal(line: string)
    requires !IsBlank(line)
    ensures IsNormalWord(Normalize(line))
  {
    var s := Strip(line);
    StripSpec(line);
    assert s != [];
    LowerOfStrippedIsNormal(s);
  }

  lemma LowerOfStrippedIsNormal(s: string)
    requires s != [] && !IsSpace(s[0]) && !IsSpace(s[|s| - 1])
    ensures IsNormalWord(Lower(s))
  {
    LowerKeepsEnds(s);
    LowerHasNoUpper(s);
  }

  lemma LowerKeepsEnds(s: string)
    requires s != [] && !IsSpace(s[0]) && !IsSpace(s[|s| - 1])
    ensures !IsSpace(Lower(s)[0]) && !IsSpace(Lower(s)[|s| - 1])
  {
    assert Lower(s)[0] == LowerChar(s[0]);
    assert Lower(s)[|s| - 1] == LowerChar(s[|s| - 1]);
  }

  /** A normal word is neither blank nor changed by normalisation. */
  lemma NormalWordIsFixed(w: string)
    requires IsNormalWord(w)
    ensures !IsBlank(w) && Normalize(w) == w
  {
    StripFixed(w);
  }

  /** The indices of the non-blank lines, strictly increasing. */
  function NonBlankIndices(lines: seq<string>): (r: seq<nat>)
    ensures forall k :: 0 <= k < |r| ==> r[k] < |lines|
    ensures forall k, l :: 0 <= k < l < |r| ==> r[k] < r[l]
    ensures forall j :: 0 <= j < |lines| ==> (j in r <==> !IsBlank(lines[j]))
    decreases |lines|
  {
    if |lines| == 0 then []
    else
      var before := NonBlankIndices(lines[..|lines| - 1]);
      if IsBlank(lines[|lines| - 1]) then before else before + [|lines| - 1]
  }

  /** The words loaded are exactly the normalised non-blank lines, in file
      order: word `k` comes from the `k`-th non-blank line. */
  lemma {:induction false} LoadWordsAreNonBlankLines(lines: seq<string>)
    ensures |LoadWords(lines)| == |NonBlankIndices(lines)|
    ensures forall k :: 0 <= k < |LoadWords(lines)| ==>
              LoadWords(lines)[k] == Normalize(lines[NonBlankIndices(lines)[k]])
    decreases |lines|
  {
    if |lines| > 0 {
      var n := |lines| - 1;
      var prefix := lines[..n];
      LoadWordsAreNonBlankLines(prefix);
      var w0 := LoadWords(prefix);
      var i0 := NonBlankIndices(prefix);
      assert forall k :: 0 <= k < |w0| ==> w0[k] == Normalize(lines[i0[k]]);
      var blank := IsBlank(lines[n]);
      assert LoadWords(lines) == (if blank then w0 else w0 + [Normalize(lines[n])]);
      assert NonBlankIndices(lines) == (if blank then i0 else i0 + [n]);
    }
  }

  /** Every non-blank line contributes its normalised form. */
  lemma LoadWordsKeepsNonBlank(lines: seq<string>, j: nat)
    requires j < |lines| && !IsBlank(lines[j])
    ensures Normalize(lines[j]) in LoadWords(lines)
  {
    LoadWordsAreNonBlankLines(lines);
    var idx := NonBlankIndices(lines);
    var k :| 0 <= k < |idx| && idx[k] == j;
    assert LoadWords(lines)[k] == Normalize(lines[j]);
  }

  /** Loading an already-loaded word list gives it back unchanged. */
  lemma {:induction false} LoadWordsIdempotent(lines: seq<string>)
    ensures LoadWords(LoadWords(lines)) == LoadWords(lines)
    decreases |lines|
  {
    LoadNormalWords(LoadWords(lines));
  }

  lemma {:induction false} LoadNormalWords(words: seq<string>)
    requires forall k :: 0 <= k < |words| ==> IsNormalWord(words[k])
    ensures LoadWords(words) == words
    decreases |words|
  {
    if |words| > 0 {
      LoadNormalWords(words[..|words| - 1]);
      NormalWordIsFixed(words[|words| - 1]);
    }
  }
}
