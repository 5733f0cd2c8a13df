/**
  The content of the generated PDF: one paragraph per line of the
  transcript that is not blank, as the list comprehension in `save_to_pdf`
  builds it. Lines are kept verbatim and in order; only the test uses
  `strip()`. What the PDF renderer does with the list is not part of this
  model.
*/
module Document {
  import opened Lines
  import opened Whitespace

  /** The comprehension's condition `if text.strip()`. */
  predicate Keeps(line: string) {
    Strip(line) != []
  }

  /** A line passes the test exactly when it is not blank. */
  lemma KeepsIffNotBlank(line: string)
    ensures Keeps(line) <==> !IsBlank(line)
  {
    StripEmptyIffBlank(line);
  }

  /** `[x for x in xs if keep(x)]`. */
  function Filter<T>(xs: seq<T>, keep: T -> bool): (kept: seq<T>)
    ensures |kept| <= |xs|
    decreases |xs|
  {
    if xs == [] then []
    else (if keep(xs[0]) then [xs[0]] else []) + Filter(xs[1..], keep)
  }

  /** The paragraph strings handed to the PDF builder for `text`. */
  function Paragraphs(text: string): seq<string> {
    Filter(Split(text), Keeps)
  }

  /** Every position moved one place on. */
  function Shift(q: seq<nat>): (r: seq<nat>)
    ensures |r| == |q| && forall k :: 0 <= k < |q| ==> r[k] == q[k] + 1
    decreases |q|
  {
    if q == [] then [] else [q[0] + 1] + Shift(q[1..])
  }

  predicate Increasing(q: seq<nat>) {
    forall k, l :: 0 <= k < l < |q| ==> q[k] < q[l]
  }

  /** Shifting a strictly increasing sequence of positions keeps it strictly
      increasing, also with position 0 put in front. */
  lemma ShiftIncreasing(q: seq<nat>)
    requires Increasing(q)
    ensures Increasing(Shift(q)) && Increasing([0] + Shift(q))
  {
    var r := [0] + Shift(q);
    forall k, l | 0 <= k < l < |r| ensures r[k] < r[l] {
      if k > 0 {
        assert r[k] == q[k - 1] + 1 && r[l] == q[l - 1] + 1;
      }
    }
  }

  /** The positions of the elements that pass `keep`, in increasing order. */
  function KeptIndices<T>(xs: seq<T>, keep: T -> bool): seq<nat>
    decreases |xs|
  {
    if xs == [] then []
    else
      var shifted := Shift(KeptIndices(xs[1..], keep));
      if keep(xs[0]) then [0] + shifted else shifted
  }

  /** The `k`-th kept element is element `KeptIndices(xs, keep)[k]`. */
  lemma {:induction false} KeptIndicesLocate<T>(xs: seq<T>, keep: T -> bool)
    ensures var idx, kept := KeptIndices(xs, keep), Filter(xs, keep);
      && |idx| == |kept|
      && (forall k :: 0 <= k < |idx| ==> idx[k] < |xs| && kept[k] == xs[idx[k]])
    decreases |xs|
  {
    if xs != [] {
      var tail := xs[1..];
      KeptIndicesLocate(tail, keep);
      var rest, restKept := KeptIndices(tail, keep), Filter(tail, keep);
      var shifted := Shift(rest);
      var idx, kept := KeptIndices(xs, keep), Filter(xs, keep);
      forall k | 0 <= k < |shifted|
        ensures shifted[k] < |xs| && restKept[k] == xs[shifted[k]]
      {
        assert xs[shifted[k]] == tail[rest[k]];
      }
      if keep(xs[0]) {
        assert idx == [0] + shifted && kept == [xs[0]] + restKept;
        forall k | 0 <= k < |idx| ensures idx[k] < |xs| && kept[k] == xs[idx[k]] {
          if k > 0 {
            assert idx[k] == shifted[k - 1] && kept[k] == restKept[k - 1];
          }
        }
      } else {
        assert idx == shifted && kept == restKept;
      }
    }
  }

  /** The kept positions strictly increase: the order is preserved. */
  lemma {:induction false} KeptIndicesIncreasing<T>(xs: seq<T>, keep: T -> bool)
    ensures Increasing(KeptIndices(xs, keep))
    decreases |xs|
  {
    if xs != [] {
      KeptIndicesIncreasing(xs[1..], keep);
      ShiftIncreasing(KeptIndices(xs[1..], keep));
    }
  }

  /** The kept positions are exactly those of the elements passing `keep`. */
  lemma {:induction false} KeptIndicesExact<T>(xs: seq<T>, keep: T -> bool)
    ensures forall i :: 0 <= i < |xs| ==> (i in KeptIndices(xs, keep) <==> keep(xs[i]))
    decreases |xs|
  {
    if xs != [] {
      var tail := xs[1..];
      KeptIndicesExact(tail, keep);
      var rest := KeptIndices(tail, keep);
      var shifted := Shift(rest);
      forall i | 1 <= i < |xs|
        ensures i in shifted <==> keep(xs[i])
      {
        assert xs[i] == tail[i - 1];
        if i - 1 in rest {
          var k :| 0 <= k < |rest| && rest[k] == i - 1;
          assert shifted[k] == i;
        }
      }
      assert 0 !in shifted;
    }
  }

  /** Each paragraph is a line of the transcript, unchanged; they come in
      the order of the lines; and every non-blank line, and no blank one,
      becomes a paragraph. */
  lemma ParagraphsAreTheNonBlankLines(text: string)
    ensures var p, lines, idx := Paragraphs(text), Split(text), KeptIndices(Split(text), Keeps);
      && |idx| == |p|
      && (forall k :: 0 <= k < |p| ==> idx[k] < |lines| && p[k] == lines[idx[k]] && !IsBlank(p[k]))
      && Increasing(idx)
      && (forall i :: 0 <= i < |lines| ==> (i in idx <==> !IsBlank(lines[i])))
  {
    var lines := Split(text);
    KeptIndicesLocate(lines, Keeps);
    KeptIndicesIncreasing(lines, Keeps);
    KeptIndicesExact(lines, Keeps);
    forall i | 0 <= i < |lines| ensures Keeps(lines[i]) <==> !IsBlank(lines[i]) {
      KeepsIffNotBlank(lines[i]);
    }
  }

  /** The set of values occurring in `q`. */
  function Elements(q: seq<nat>): set<nat> {
    set x | x in q
  }

  /** A strictly increasing sequence has as many distinct elements as it
      has elements. */
  lemma {:induction false} IncreasingCard(q: seq<nat>)
    requires Increasing(q)
    ensures |Elements(q)| == |q|
    decreases |q|
  {
    if q != [] {
      IncreasingCard(q[1..]);
      var s := Elements(q[1..]);
      assert q[0] !in s;
      assert Elements(q) == {q[0]} + s by {
        assert q == [q[0]] + q[1..];
      }
      assert |{q[0]} + s| == |s| + 1;
    }
  }

  /** The number of paragraphs is the number of non-blank lines. */
  lemma ParagraphCount(text: string)
    ensures |Paragraphs(text)| == |set i | 0 <= i < |Split(text)| && !IsBlank(Split(text)[i])|
  {
    var lines, idx := Split(text), KeptIndices(Split(text), Keeps);
    ParagraphsAreTheNonBlankLines(text);
    IncreasingCard(idx);
    assert (set i | 0 <= i < |lines| && !IsBlank(lines[i])) == Elements(idx);
  }

  /** A joined text is blank exactly when each of its lines is. */
  lemma {:induction false} JoinBlank(lines: seq<string>)
    requires |lines| >= 1
    ensures IsBlank(Join(lines)) <==> forall i :: 0 <= i < |lines| ==> IsBlank(lines[i])
    decreases |lines|
  {
    if |lines| > 1 {
      JoinBlank(lines[1..]);
      var rest := Join(lines[1..]);
      var whole := lines[0] + "\n" + rest;
      assert forall j :: 0 <= j < |lines[0]| ==> whole[j] == lines[0][j];
      assert forall j :: 0 <= j < |rest| ==> whole[|lines[0]| + 1 + j] == rest[j];
      assert forall i :: 1 <= i < |lines| ==> lines[i] == lines[1..][i - 1];
      if IsBlank(rest) && IsBlank(lines[0]) {
        forall j | 0 <= j < |whole| ensures IsSpace(whole[j]) {
          if j > |lines[0]| {
            assert whole[j] == rest[j - |lines[0]| - 1];
          }
        }
      }
    }
  }

  /** A transcript yields no paragraph at all exactly when it is blank,
      newlines included: "", "\n\n" and "  \n\t" all give an empty PDF. */
  lemma NoParagraphsIffBlank(text: string)
    ensures Paragraphs(text) == [] <==> IsBlank(text)
  {
    var lines, idx := Split(text), KeptIndices(Split(text), Keeps);
    ParagraphsAreTheNonBlankLines(text);
    JoinSplit(text);
    JoinBlank(lines);
    if Paragraphs(text) != [] {
      assert idx[0] in idx;
    }
  }

  /** A non-blank transcript without a newline is exactly one paragraph,
      itself, leading and trailing whitespace included. */
  lemma SingleLineParagraph(text: string)
    requires '\n' !in text && !IsBlank(text)
    ensures Paragraphs(text) == [text]
  {
    SplitJoin([text]);
    KeepsIffNotBlank(text);
  }

  /** Blank transcripts give an empty document. */
  lemma BlankTranscriptExamples()
    ensures Paragraphs("") == []
    ensures Paragraphs("\n\n") == []
    ensures Paragraphs("  \n\t") == []
  {
    NoParagraphsIffBlank("");
    NoParagraphsIffBlank("\n\n");
    NoParagraphsIffBlank("  \n\t");
  }

  /** A kept line is not trimmed: leading spaces and a trailing '\r'
      survive. */
  lemma UntrimmedLineExample()
    ensures Paragraphs("  hi\r") == ["  hi\r"]
  {
    assert !IsSpace("  hi\r"[2]);
    SingleLineParagraph("  hi\r");
  }
}
