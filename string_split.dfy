/**
 * Java's `s.split("[,\\s]+")`: the pieces of `s` between maximal runs of commas and
 * whitespace. A separator run at the start leaves an empty first piece, empty pieces at
 * the end are dropped, and a string with no separator at all (the empty string
 * included) is its own single piece.
 */
module StringSplit {
  import opened Seqs

  /** A char of the class `[,\s]`: a comma, or one of Java's `\s` = [ \t\n\x0B\f\r]. */
  predicate IsSeparator(c: char) {
    c == ',' || c == ' ' || c == '\t' || c == '\n' || c == '\U{0B}' || c == '\U{0C}' || c == '\r'
  }

  predicate NoSeparator(s: string) {
    forall k :: 0 <= k < |s| ==> !IsSeparator(s[k])
  }

  /** `s` with its leading run of separators removed. */
  function DropSeparators(s: string): (r: string)
    ensures |r| <= |s| && r == s[|s| - |r|..]
    ensures r == [] || !IsSeparator(r[0])
    ensures forall k :: 0 <= k < |s| - |r| ==> IsSeparator(s[k])
    ensures s != [] && IsSeparator(s[0]) ==> |r| < |s|
  {
    if s != [] && IsSeparator(s[0]) then DropSeparators(s[1..]) else s
  }

  /** The pieces between maximal separator runs, empty ones included. */
  function Pieces(s: string): (r: seq<string>)
    ensures |r| >= 1
    decreases |s|
  {
    if s == [] then [""]
    else if IsSeparator(s[0]) then [""] + Pieces(DropSeparators(s))
    else var rest := Pieces(s[1..]); [[s[0]] + rest[0]] + rest[1..]
  }

  /** The pieces with the empty ones at the end removed. */
  function DropTrailingEmpty(ps: seq<string>): (r: seq<string>)
    ensures r <= ps
    ensures r == [] || r[|r| - 1] != ""
    ensures forall k :: |r| <= k < |ps| ==> ps[k] == ""
  {
    if ps != [] && ps[|ps| - 1] == "" then DropTrailingEmpty(ps[..|ps| - 1]) else ps
  }

  /** `s.split("[,\\s]+")`. */
  function Split(s: string): seq<string>
  {
    if s == [] then [""] else DropTrailingEmpty(Pieces(s))
  }

  /** The shape `Pieces` has: no piece holds a separator, and every piece strictly inside
   *  the list is non-empty. */
  predicate PieceList(ps: seq<string>) {
    && (forall i :: 0 <= i < |ps| ==> NoSeparator(ps[i]))
    && (forall i :: 0 < i < |ps| - 1 ==> ps[i] != "")
  }

  /** No piece holds a separator; every piece strictly inside the list is non-empty; the
   *  first is empty exactly when `s` is empty or starts with a separator. */
  lemma {:induction false} PiecesShape(s: string)
    ensures forall i :: 0 <= i < |Pieces(s)| ==> NoSeparator(Pieces(s)[i])
    ensures forall i :: 0 < i < |Pieces(s)| - 1 ==> Pieces(s)[i] != ""
    ensures Pieces(s)[0] == "" <==> s == [] || IsSeparator(s[0])
    decreases |s|
  {
    if s == [] {
    } else if IsSeparator(s[0]) {
      var u := DropSeparators(s);
      PiecesShape(u);
      EmptyPieceFirst(Pieces(u));
    } else {
      PiecesShape(s[1..]);
      CharJoinsFirstPiece(s[0], Pieces(s[1..]));
    }
  }

  /** A separator run in front of a piece list adds an empty first piece. */
  lemma EmptyPieceFirst(ps: seq<string>)
    requires |ps| >= 1 && PieceList(ps)
    requires |ps| > 1 ==> ps[0] != ""
    ensures PieceList([""] + ps)
  {
    var r := [""] + ps;
    forall i | 0 < i < |r| ensures r[i] == ps[i - 1] {
    }
  }

  /** A non-separator char joins the first piece of a piece list. */
  lemma CharJoinsFirstPiece(c: char, ps: seq<string>)
    requires !IsSeparator(c) && |ps| >= 1 && PieceList(ps)
    ensures PieceList([[c] + ps[0]] + ps[1..])
    ensures [c] + ps[0] != ""
  {
    var r := [[c] + ps[0]] + ps[1..];
    var p := [c] + ps[0];
    forall k | 0 <= k < |p| ensures !IsSeparator(p[k]) {
      if k > 0 { assert p[k] == ps[0][k - 1]; }
    }
    forall i | 0 < i < |r| ensures r[i] == ps[i] {
    }
  }

  /** What `split` promises: separator-free tokens, none empty but possibly the first, an
   *  empty first token only after a leading separator, and no token at all exactly for
   *  text made of separators only. */
  lemma SplitShape(s: string)
    ensures forall i :: 0 <= i < |Split(s)| ==> NoSeparator(Split(s)[i])
    ensures forall i :: 0 < i < |Split(s)| ==> Split(s)[i] != ""
    ensures s != [] && !IsSeparator(s[0]) ==> Split(s) != [] && Split(s)[0] != ""
    ensures s != [] && IsSeparator(s[0]) ==> Split(s) == [] || Split(s)[0] == ""
    ensures Split(s) == [] <==> IsRun(s)
  {
    if s != [] {
      PiecesShape(s);
      var ps := Pieces(s);
      var r := DropTrailingEmpty(ps);
      assert forall i :: 0 <= i < |r| ==> r[i] == ps[i];
      if !IsSeparator(s[0]) {
        assert ps[0] != "";
      }
      if IsRun(s) {
        PiecesOfRun(s);
      } else {
        var k :| 0 <= k < |s| && !IsSeparator(s[k]);
        NonEmptyPiece(s, k);
      }
    }
  }

  /** Text made of separators only has two empty pieces, before and after the run. */
  lemma PiecesOfRun(s: string)
    requires IsRun(s)
    ensures Pieces(s) == ["", ""]
  {
    DropRun(s, "");
    assert s + "" == s;
  }

  /** Text with a non-separator at `k` has a non-empty piece. */
  lemma {:induction false} NonEmptyPiece(s: string, k: nat)
    requires k < |s| && !IsSeparator(s[k])
    ensures exists i :: 0 <= i < |Pieces(s)| && Pieces(s)[i] != ""
    decreases |s|
  {
    if !IsSeparator(s[0]) {
      assert Pieces(s)[0] != "";
    } else {
      var u := DropSeparators(s);
      var d := |s| - |u|;
      assert d <= k;
      assert u[k - d] == s[k];
      NonEmptyPiece(u, k - d);
      var i :| 0 <= i < |Pieces(u)| && Pieces(u)[i] != "";
      assert Pieces(s)[i + 1] == Pieces(u)[i];
    }
  }

  /** A separator-free word in front of `rest` joins the first piece of `rest`. */
  lemma {:induction false} PiecesPrefix(t: string, rest: string)
    requires NoSeparator(t)
    ensures Pieces(t + rest) == [t + Pieces(rest)[0]] + Pieces(rest)[1..]
    decreases |t|
  {
    if t != [] {
      var s, u, ps := t + rest, t[1..], Pieces(rest);
      assert s[0] == t[0] && !IsSeparator(s[0]);
      assert s[1..] == u + rest;
      assert NoSeparator(u) by {
        forall k | 0 <= k < |u| ensures !IsSeparator(u[k]) {
          assert u[k] == t[k + 1];
        }
      }
      PiecesPrefix(u, rest);
      var tail := Pieces(u + rest);
      assert tail == [u + ps[0]] + ps[1..];
      assert Pieces(s) == [[t[0]] + tail[0]] + tail[1..];
      assert [t[0]] + (u + ps[0]) == t + ps[0];
    } else {
      var ps := Pieces(rest);
      assert t + rest == rest && t + ps[0] == ps[0];
      assert [ps[0]] + ps[1..] == ps;
    }
  }

  predicate WellFormedTokens(ts: seq<string>) {
    forall i :: 0 <= i < |ts| ==> ts[i] != "" && NoSeparator(ts[i])
  }

  /** A non-empty run of separators, such as "," or ", " or "\n\t". */
  predicate IsRun(r: string) {
    r != [] && forall k :: 0 <= k < |r| ==> IsSeparator(r[k])
  }

  predicate RunOrEmpty(r: string) {
    r == [] || IsRun(r)
  }

  predicate Runs(seps: seq<string>) {
    forall i :: 0 <= i < |seps| ==> IsRun(seps[i])
  }

  /** The tokens `ts` joined by the separator runs `seps`, `seps[i]` between `ts[i]` and
   *  `ts[i + 1]`; `SplitJoinWith` shows that `Split` gives the tokens back. */
  function JoinWith(ts: seq<string>, seps: seq<string>): string
    requires ts != [] && |seps| == |ts| - 1
  {
    if |ts| == 1 then ts[0] else ts[0] + (seps[0] + JoinWith(ts[1..], seps[1..]))
  }

  /** Joined text starts with the first char of the first token. */
  lemma JoinWithHead(ts: seq<string>, seps: seq<string>, trail: string)
    requires ts != [] && |seps| == |ts| - 1 && ts[0] != ""
    ensures JoinWith(ts, seps) + trail != [] && (JoinWith(ts, seps) + trail)[0] == ts[0][0]
  {
  }

  lemma WellFormedTail(ts: seq<string>, seps: seq<string>)
    requires |ts| > 1 && |seps| == |ts| - 1 && WellFormedTokens(ts) && Runs(seps)
    ensures WellFormedTokens(ts[1..]) && Runs(seps[1..])
  {
    forall i | 0 <= i < |ts[1..]| ensures ts[1..][i] != "" && NoSeparator(ts[1..][i]) {
      assert ts[1..][i] == ts[i + 1];
    }
    forall i | 0 <= i < |seps[1..]| ensures IsRun(seps[1..][i]) {
      assert seps[1..][i] == seps[i + 1];
    }
  }

  /** A separator run is dropped up to the first non-separator after it. */
  lemma {:induction false} DropRun(r: string, rest: string)
    requires RunOrEmpty(r)
    requires rest == [] || !IsSeparator(rest[0])
    ensures DropSeparators(r + rest) == rest
    decreases |r|
  {
    if r == [] {
      assert r + rest == rest;
    } else {
      assert (r + rest)[0] == r[0];
      assert (r + rest)[1..] == r[1..] + rest;
      assert RunOrEmpty(r[1..]) by {
        forall k | 0 <= k < |r[1..]| ensures IsSeparator(r[1..][k]) {
          assert r[1..][k] == r[k + 1];
        }
      }
      DropRun(r[1..], rest);
    }
  }

  /** A separator run in front of a word ends the piece before it. */
  lemma PiecesAfterRun(r: string, rest: string)
    requires IsRun(r)
    requires rest == [] || !IsSeparator(rest[0])
    ensures Pieces(r + rest) == [""] + Pieces(rest)
  {
    assert (r + rest)[0] == r[0];
    DropRun(r, rest);
  }

  /** A token, a separator run, then a word: the token is the first piece. */
  lemma PiecesStep(t: string, r: string, rest: string)
    requires NoSeparator(t) && IsRun(r)
    requires rest == [] || !IsSeparator(rest[0])
    ensures Pieces(t + (r + rest)) == [t] + Pieces(rest)
  {
    PiecesPrefix(t, r + rest);
    PiecesAfterRun(r, rest);
    assert t + "" == t;
  }

  /** Unfolding the first token of a join followed by `trail`. */
  lemma JoinWithCons(ts: seq<string>, seps: seq<string>, trail: string)
    requires |ts| > 1 && |seps| == |ts| - 1
    ensures JoinWith(ts, seps) + trail
            == ts[0] + (seps[0] + (JoinWith(ts[1..], seps[1..]) + trail))
  {
    var t, r, j := ts[0], seps[0], JoinWith(ts[1..], seps[1..]);
    assert JoinWith(ts, seps) == t + (r + j);
    Assoc(t, r + j, trail);
    Assoc(r, j, trail);
  }

  lemma ConsAppend(ts: seq<string>, ps: seq<string>)
    requires ts != []
    ensures [ts[0]] + (ts[1..] + ps) == ts + ps
  {
    assert [ts[0]] + ts[1..] == ts;
  }

  /** The pieces of joined tokens followed by a separator run (or nothing) are the
   *  tokens, and one empty piece after the run. */
  lemma {:induction false} PiecesJoinWith(ts: seq<string>, seps: seq<string>, trail: string)
    requires ts != [] && |seps| == |ts| - 1 && WellFormedTokens(ts) && Runs(seps)
    requires RunOrEmpty(trail)
    ensures Pieces(JoinWith(ts, seps) + trail) == ts + (if trail == [] then [] else [""])
    decreases |ts|
  {
    if |ts| == 1 {
      PiecesJoinOne(ts[0], trail);
      assert [ts[0]] == ts;
    } else {
      WellFormedTail(ts, seps);
      PiecesJoinWith(ts[1..], seps[1..], trail);
      JoinWithCons(ts, seps, trail);
      JoinWithHead(ts[1..], seps[1..], trail);
      PiecesStep(ts[0], seps[0], JoinWith(ts[1..], seps[1..]) + trail);
      ConsAppend(ts, if trail == [] then [] else [""]);
    }
  }

  /** A single token followed by a separator run or nothing. */
  lemma PiecesJoinOne(t: string, trail: string)
    requires NoSeparator(t) && RunOrEmpty(trail)
    ensures Pieces(t + trail) == [t] + (if trail == [] then [] else [""])
  {
    if trail == [] {
      PiecesPrefix(t, "");
      assert t + "" == t;
    } else {
      PiecesStep(t, trail, "");
      assert trail + "" == trail;
    }
  }

  /** `Split` drops one empty piece after a list that ends in a non-empty piece. */
  lemma SplitOfPieces(s: string, ps: seq<string>, empty: seq<string>)
    requires s != [] && ps != [] && ps[|ps| - 1] != ""
    requires empty == [] || empty == [""]
    requires Pieces(s) == ps + empty
    ensures Split(s) == ps
  {
    assert (ps + [""])[..|ps|] == ps;
    assert ps + [] == ps;
  }

  /** An optional separator run in front of a word adds an empty first piece. */
  lemma PiecesLead(lead: string, u: string)
    requires RunOrEmpty(lead)
    requires u != [] && !IsSeparator(u[0])
    ensures lead + u != []
    ensures Pieces(lead + u) == (if lead == [] then [] else [""]) + Pieces(u)
  {
    if lead == [] {
      assert lead + u == u;
    } else {
      PiecesAfterRun(lead, u);
    }
  }

  /** The pieces of joined tokens with an optional run in front and one at the end. */
  lemma PiecesAround(lead: string, ts: seq<string>, seps: seq<string>, trail: string)
    requires ts != [] && |seps| == |ts| - 1 && WellFormedTokens(ts) && Runs(seps)
    requires RunOrEmpty(lead) && RunOrEmpty(trail)
    ensures lead + JoinWith(ts, seps) + trail != []
    ensures Pieces(lead + JoinWith(ts, seps) + trail)
            == (if lead == [] then [] else [""]) + ts + (if trail == [] then [] else [""])
  {
    var j := JoinWith(ts, seps);
    var pre: seq<string> := if lead == [] then [] else [""];
    var empty: seq<string> := if trail == [] then [] else [""];
    Assoc(lead, j, trail);
    JoinWithHead(ts, seps, trail);
    PiecesJoinWith(ts, seps, trail);
    PiecesLead(lead, j + trail);
    Assoc(pre, ts, empty);
  }

  /**
   * Splitting undoes joining: well-formed tokens joined by arbitrary separator runs, with
   * an optional run in front and an optional run at the end, split back into exactly
   * those tokens, after one empty token when there is a run in front.
   */
  lemma SplitJoinWith(lead: string, ts: seq<string>, seps: seq<string>, trail: string)
    requires ts != [] && |seps| == |ts| - 1 && WellFormedTokens(ts) && Runs(seps)
    requires RunOrEmpty(lead) && RunOrEmpty(trail)
    ensures Split(lead + JoinWith(ts, seps) + trail) == (if lead == [] then [] else [""]) + ts
  {
    var pre: seq<string> := if lead == [] then [] else [""];
    PiecesAround(lead, ts, seps, trail);
    assert (pre + ts)[|pre + ts| - 1] == ts[|ts| - 1];
    SplitOfPieces(lead + JoinWith(ts, seps) + trail, pre + ts, if trail == [] then [] else [""]);
  }
}
