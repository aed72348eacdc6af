/** The review list of the movie details page: the critics' answer is cut at '|',
    each piece trimmed, blank pieces dropped, and the list cut or padded to exactly
    three reviews, so that the sentiment average always divides by three. */
module Reviews {
  import opened Common
  import opened Text

  /** The character the critics are told to put between their reviews. */
  const Separator: char := '|'

  /** How many reviews the page shows and averages over. */
  const ReviewCount: nat := 3

  /** Trim every piece and keep the ones that are not blank, in their original order. */
  function NonBlankTrimmed(pieces: seq<string>): (kept: seq<string>)
    ensures |kept| <= |pieces|
    ensures forall i :: 0 <= i < |kept| ==> kept[i] != [] && IsTrimmed(kept[i])
    decreases |pieces|
  {
    if |pieces| == 0 then []
    else
      var t := Trim(pieces[0]);
      var rest := NonBlankTrimmed(pieces[1..]);
      if IsBlank(t) then rest else [t] + rest
  }

  /** Keeping pieces commutes with concatenation: what survives of a list is what survives of
      its front followed by what survives of its back, so order is preserved. */
  lemma {:induction false} NonBlankTrimmedAppend(a: seq<string>, b: seq<string>)
    ensures NonBlankTrimmed(a + b) == NonBlankTrimmed(a) + NonBlankTrimmed(b)
    decreases |a|
  {
    if |a| > 0 {
      assert (a + b)[0] == a[0];
      assert (a + b)[1..] == a[1..] + b;
      NonBlankTrimmedAppend(a[1..], b);
    } else {
      assert a + b == b;
    }
  }

  /** Every kept review is the trimmed form of one of the pieces. */
  lemma {:induction false} KeptFromPieces(pieces: seq<string>)
    ensures forall x :: x in NonBlankTrimmed(pieces) ==>
              exists j :: 0 <= j < |pieces| && x == Trim(pieces[j])
    decreases |pieces|
  {
    if |pieces| > 0 {
      KeptFromPieces(pieces[1..]);
      forall x | x in NonBlankTrimmed(pieces)
        ensures exists j :: 0 <= j < |pieces| && x == Trim(pieces[j])
      {
        if x != Trim(pieces[0]) {
          assert x in NonBlankTrimmed(pieces[1..]);
          var j :| 0 <= j < |pieces[1..]| && x == Trim(pieces[1..][j]);
          assert x == Trim(pieces[j + 1]);
        }
      }
    }
  }

  /** Conversely, a piece that is not blank once trimmed survives as its trimmed form. */
  lemma {:induction false} NonBlankSurvives(pieces: seq<string>, j: int)
    requires 0 <= j < |pieces| && Trim(pieces[j]) != []
    ensures Trim(pieces[j]) in NonBlankTrimmed(pieces)
  {
    var front, back := pieces[..j], pieces[j + 1..];
    assert pieces == front + ([pieces[j]] + back);
    NonBlankTrimmedAppend(front, [pieces[j]] + back);
    KeptAtFront(pieces[j], back);
  }

  /** A piece at the front that is not blank once trimmed comes out first. */
  lemma KeptAtFront(p: string, back: seq<string>)
    requires Trim(p) != []
    ensures NonBlankTrimmed([p] + back) == [Trim(p)] + NonBlankTrimmed(back)
  {
  }

  /** The reviews the page can take from the answer text, before cutting or padding. */
  function Candidates(responseText: string): seq<string>
  {
    NonBlankTrimmed(Split(responseText, Separator))
  }

  /** The review used for each missing slot; a null title interpolates as the empty string. */
  function Filler(title: Option<string>): string
  {
    var name := match title
      case None => ""
      case Some(t) => t;
    "Review of " + name + ": A compelling film worth watching."
  }

  /** The normalisation of the details page: cut at the separator, trim, drop blanks, then
      keep the first three or pad with the filler up to three. */
  method NormalizeReviews(responseText: string, title: Option<string>) returns (reviews: seq<string>)
    ensures |reviews| == ReviewCount
    ensures var c := Candidates(responseText);
            |c| >= ReviewCount ==> reviews == c[..ReviewCount]
    ensures var c := Candidates(responseText);
            |c| < ReviewCount ==>
              && reviews[..|c|] == c
              && forall i :: |c| <= i < ReviewCount ==> reviews[i] == Filler(title)
    ensures forall i :: 0 <= i < |reviews| ==>
              || reviews[i] == Filler(title)
              || (reviews[i] in Candidates(responseText) && reviews[i] != [] && IsTrimmed(reviews[i]))
  {
    var candidates := Candidates(responseText);
    reviews := candidates;
    if |reviews| < ReviewCount {
      var filler := Filler(title);
      while |reviews| < ReviewCount
        invariant |candidates| <= |reviews| <= ReviewCount
        invariant reviews[..|candidates|] == candidates
        invariant forall i :: |candidates| <= i < |reviews| ==> reviews[i] == filler
        decreases ReviewCount - |reviews|
      {
        reviews := reviews + [filler];
      }
    } else if |reviews| > ReviewCount {
      reviews := reviews[..ReviewCount];
    }
  }

  /** Trimming a string that has no white space at its ends leaves it as it is. */
  lemma TrimTrimmed(s: string)
    requires IsTrimmed(s)
    ensures Trim(s) == s
  {
  }

  /** An answer made of well-formed reviews (non-empty, trimmed, free of the separator) joined
      by the separator yields exactly those reviews, in order: the page loses nothing the
      critics wrote in the requested format. */
  lemma {:induction false} CandidatesOfJoined(ps: seq<string>)
    requires |ps| > 0
    requires forall i :: 0 <= i < |ps| ==> ps[i] != [] && IsTrimmed(ps[i]) && Separator !in ps[i]
    ensures Candidates(Join(ps, Separator)) == ps
    decreases |ps|
  {
    SplitJoin(ps, Separator);
    AllKept(ps);
  }

  /** Every well-formed piece survives trimming and the blank filter unchanged. */
  lemma {:induction false} AllKept(ps: seq<string>)
    requires forall i :: 0 <= i < |ps| ==> ps[i] != [] && IsTrimmed(ps[i])
    ensures NonBlankTrimmed(ps) == ps
    decreases |ps|
  {
    if |ps| > 0 {
      TrimTrimmed(ps[0]);
      AllKept(ps[1..]);
      assert [ps[0]] + ps[1..] == ps;
    }
  }
}
