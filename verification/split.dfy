/**
  `splitOnCaps` (src/utils.js:9-11) is `x.split(/(?=[A-Z])/)`: a zero-width
  split before every ASCII capital. A split is never made at index 0 (an empty
  match at the start of the current piece is skipped), and the empty string
  splits into one empty piece.
 */
module Split {
  import opened Case

  /** `Array.prototype.join('')` on a list of pieces. */
  function Concat(ps: seq<string>): string {
    if |ps| == 0 then "" else ps[0] + Concat(ps[1..])
  }

  /** No capital anywhere after the first character. */
  predicate NoCapsAfterHead(t: string) {
    forall j :: 1 <= j < |t| ==> !IsUpper(t[j])
  }

  /** A piece after the first: a capital followed by no other capital. */
  predicate IsCapWord(t: string) {
    |t| > 0 && IsUpper(t[0]) && NoCapsAfterHead(t)
  }

  /**
    The shape every result of `splitOnCaps` has: at least one piece; the head
    piece has no capital after its first character and is empty only when it
    is the sole piece; every later piece is a capital word.
   */
  predicate WellSplit(ps: seq<string>) {
    && |ps| >= 1
    && NoCapsAfterHead(ps[0])
    && (|ps| > 1 ==> |ps[0]| > 0)
    && forall i :: 1 <= i < |ps| ==> IsCapWord(ps[i])
  }

  /** Least index `k >= i` holding a capital, or `|s|` when there is none. */
  function FirstCapFrom(s: string, i: nat): (k: nat)
    requires i <= |s|
    ensures i <= k <= |s|
    ensures forall j :: i <= j < k ==> !IsUpper(s[j])
    ensures k < |s| ==> IsUpper(s[k])
    decreases |s| - i
  {
    if i == |s| || IsUpper(s[i]) then i else FirstCapFrom(s, i + 1)
  }

  /**
    The first split position: the least index from 1 on that holds a capital,
    or `|s|` when there is none. Index 0 is never a split position.
   */
  function FirstCap(s: string): (k: nat)
    ensures k <= |s|
    ensures |s| > 0 ==> 1 <= k
    ensures forall j :: 1 <= j < k ==> !IsUpper(s[j])
    ensures k < |s| ==> IsUpper(s[k])
  {
    if |s| == 0 then 0 else FirstCapFrom(s, 1)
  }

  /** Any index with the defining properties of `FirstCap` is `FirstCap`. */
  lemma FirstCapUnique(s: string, k: nat)
    requires k <= |s|
    requires |s| > 0 ==> 1 <= k
    requires forall j :: 1 <= j < k ==> !IsUpper(s[j])
    requires k < |s| ==> IsUpper(s[k])
    ensures FirstCap(s) == k
  {
  }

  /** The pieces of a non-empty string: cut at `FirstCap`, then again on the rest. */
  function Pieces(t: string): seq<string>
    decreases |t|
  {
    if |t| == 0 then []
    else
      var k := FirstCap(t);
      [t[..k]] + Pieces(t[k..])
  }

  /** `splitOnCaps`. */
  function SplitOnCaps(s: string): (r: seq<string>)
    ensures |r| >= 1
    ensures r[0] == s[..FirstCap(s)]
  {
    if |s| == 0 then [""] else Pieces(s)
  }

  lemma {:induction false} PiecesJoin(t: string)
    ensures Concat(Pieces(t)) == t
    decreases |t|
  {
    if |t| > 0 {
      var k := FirstCap(t);
      PiecesJoin(t[k..]);
      assert ([t[..k]] + Pieces(t[k..]))[1..] == Pieces(t[k..]);
      assert t[..k] + t[k..] == t;
    }
  }

  /** Every piece is non-empty with no inner capital; every piece but the first starts with one. */
  lemma {:induction false} PiecesShape(t: string)
    ensures forall i :: 0 <= i < |Pieces(t)| ==> |Pieces(t)[i]| > 0 && NoCapsAfterHead(Pieces(t)[i])
    ensures forall i :: 1 <= i < |Pieces(t)| ==> IsUpper(Pieces(t)[i][0])
    decreases |t|
  {
    if |t| > 0 {
      var k := FirstCap(t);
      var rest := t[k..];
      PiecesShape(rest);
      var ps := Pieces(t);
      assert ps == [t[..k]] + Pieces(rest);
      forall i | 1 <= i < |ps|
        ensures IsUpper(ps[i][0])
      {
        if i == 1 {
          assert ps[1] == rest[..FirstCap(rest)];
          assert rest[0] == t[k];
        }
      }
    }
  }

  /** `splitOnCaps` loses nothing: joining the pieces gives back the input. */
  lemma SplitOnCapsJoin(s: string)
    ensures Concat(SplitOnCaps(s)) == s
  {
    if |s| > 0 {
      PiecesJoin(s);
    } else {
      assert Concat([""]) == "" + Concat([]);
    }
  }

  /** Every result of `splitOnCaps` has the `WellSplit` shape. */
  lemma SplitOnCapsShape(s: string)
    ensures WellSplit(SplitOnCaps(s))
  {
    if |s| > 0 {
      PiecesShape(s);
    }
  }

  /**
    The head piece is the text before the first split position and the
    remaining pieces join to the text from it on.
   */
  lemma SplitOnCapsHead(s: string)
    ensures SplitOnCaps(s)[0] == s[..FirstCap(s)]
    ensures Concat(SplitOnCaps(s)[1..]) == s[FirstCap(s)..]
  {
    if |s| > 0 {
      var k := FirstCap(s);
      assert SplitOnCaps(s)[1..] == Pieces(s[k..]);
      PiecesJoin(s[k..]);
    }
  }

  lemma {:induction false} PiecesUnique(t: string, ps: seq<string>)
    requires forall i :: 0 <= i < |ps| ==> |ps[i]| > 0 && NoCapsAfterHead(ps[i])
    requires forall i :: 1 <= i < |ps| ==> IsUpper(ps[i][0])
    requires Concat(ps) == t
    ensures ps == Pieces(t)
    decreases |ps|
  {
    if |ps| > 0 {
      var h := ps[0];
      var tail := ps[1..];
      assert t == h + Concat(tail);
      if |tail| > 0 {
        assert Concat(tail) == tail[0] + Concat(tail[1..]);
        assert t[|h|] == tail[0][0];
      } else {
        assert t == h;
      }
      forall j | 1 <= j < |h|
        ensures !IsUpper(t[j])
      {
        assert t[j] == h[j];
      }
      FirstCapUnique(t, |h|);
      assert t[..|h|] == h;
      assert t[|h|..] == Concat(tail);
      PiecesUnique(t[|h|..], tail);
    }
  }

  /**
    `WellSplit` together with "joins back to `s`" determines the split: it is
    the one and only split before capitals, never at index 0.
   */
  lemma SplitOnCapsUnique(s: string, ps: seq<string>)
    requires WellSplit(ps) && Concat(ps) == s
    ensures ps == SplitOnCaps(s)
  {
    if |ps[0]| == 0 {
      assert |ps| == 1;
      assert Concat(ps) == ps[0] + Concat([]);
    } else {
      assert |s| > 0 by {
        assert s == ps[0] + Concat(ps[1..]);
      }
      PiecesUnique(s, ps);
    }
  }

  /** A cut of the scan: from `p`, the next capital after `p` is at `q`. */
  lemma PiecesCut(s: string, p: nat, q: nat)
    requires p < q <= |s|
    requires forall j :: p < j < q ==> !IsUpper(s[j])
    requires q < |s| ==> IsUpper(s[q])
    ensures Pieces(s[p..]) == [s[p..q]] + Pieces(s[q..])
  {
    var t := s[p..];
    forall j | 1 <= j < q - p
      ensures !IsUpper(t[j])
    {
      assert t[j] == s[p + j];
    }
    FirstCapUnique(t, q - p);
    assert t[..q - p] == s[p..q];
    assert t[q - p..] == s[q..];
  }

  /** Moving one piece from the front of the rest to the end of the pieces so far. */
  lemma MovePiece(r: seq<string>, rest: seq<string>, piece: string, tail: seq<string>, all: seq<string>)
    requires rest == [piece] + tail
    requires r + rest == all
    ensures (r + [piece]) + tail == all
  {
    assert (r + [piece]) + tail == r + ([piece] + tail);
  }

  /**
    The split as the RegExp split loop performs it: `p` is where the current
    piece starts, `q` scans forward, and a piece is cut before each capital
    at `q > p`.
   */
  method SplitOnCapsScan(s: string) returns (r: seq<string>)
    ensures r == SplitOnCaps(s)
    ensures WellSplit(r) && Concat(r) == s
  {
    if |s| == 0 {
      r := [""];
    } else {
      r := [];
      var p := 0;
      var q := 1;
      while q < |s|
        invariant 0 <= p < q <= |s|
        invariant forall j :: p < j < q ==> !IsUpper(s[j])
        invariant r + Pieces(s[p..]) == Pieces(s)
      {
        if IsUpper(s[q]) {
          PiecesCut(s, p, q);
          MovePiece(r, Pieces(s[p..]), s[p..q], Pieces(s[q..]), Pieces(s));
          r := r + [s[p..q]];
          p := q;
        }
        q := q + 1;
      }
      PiecesCut(s, p, |s|);
      MovePiece(r, Pieces(s[p..]), s[p..|s|], Pieces(s[|s|..]), Pieces(s));
      assert Pieces(s[|s|..]) == [] && s[p..|s|] == s[p..];
      r := r + [s[p..]];
    }
    SplitOnCapsShape(s);
    SplitOnCapsJoin(s);
  }
}
