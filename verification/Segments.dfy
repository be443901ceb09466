/** Texts told by the segments between their separators, and what splitting makes of them. */
module Segments {
  import opened Text

  /** A segment: a text with no blank at either end, and blanks around it. */
  datatype Segment = Segment(before: string, core: string, behind: string)

  predicate Blanks(s: string) {
    forall i :: 0 <= i < |s| ==> IsBlank(s[i])
  }

  predicate ProperSegment(g: Segment, d: char) {
    && Blanks(g.before) && Blanks(g.behind) && Trimmed(g.core)
    && Lacks(g.before, d) && Lacks(g.core, d) && Lacks(g.behind, d)
  }

  predicate AllProper(gs: seq<Segment>, d: char) {
    forall i :: 0 <= i < |gs| ==> ProperSegment(gs[i], d)
  }

  function TextOf(g: Segment): string {
    g.before + g.core + g.behind
  }

  /** The segments with `d` between them. */
  function Linked(gs: seq<Segment>, d: char): string {
    if gs == [] then ""
    else if |gs| == 1 then TextOf(gs[0])
    else TextOf(gs[0]) + [d] + Linked(gs[1..], d)
  }

  /** The cores that are not empty. */
  function Cores(gs: seq<Segment>): seq<string> {
    if gs == [] then [] else (if gs[0].core == "" then [] else [gs[0].core]) + Cores(gs[1..])
  }

  lemma BlankPiece(s: string)
    requires Blanks(s)
    ensures Piece(s) == []
  {
    assert TrimCopy(s) == "";
  }

  lemma CorePiece(before: string, core: string, behind: string)
    requires Blanks(before) && Blanks(behind) && Trimmed(core) && core != ""
    ensures Piece(before + core + behind) == [core]
  {
    var s := before + core + behind;
    var l, r := |before|, |before| + |core|;
    assert s[l] == core[0] && s[r - 1] == core[|core| - 1] && s[l..r] == core;
    SkipBlanksIs(s, 0, l);
    DropBlanksIs(s, |s|, r);
    hide SkipBlanks, DropBlanks, Blanks;
  }

  lemma SegmentPiece(g: Segment, d: char)
    requires ProperSegment(g, d)
    ensures Piece(TextOf(g)) == if g.core == "" then [] else [g.core]
    ensures Lacks(TextOf(g), d)
  {
    hide Piece;
    if g.core == "" {
      BlankPiece(TextOf(g));
    } else {
      CorePiece(g.before, g.core, g.behind);
    }
  }

  /** Splitting yields the segments' cores, without those that are empty. */
  lemma {:induction false} SplitSegments(gs: seq<Segment>, d: char)
    requires AllProper(gs, d)
    ensures Split(Linked(gs, d), d) == Cores(gs)
  {
    if gs == [] {
      SplitNone("", d);
    } else {
      var s := TextOf(gs[0]);
      SegmentPiece(gs[0], d);
      hide Split, Piece, ProperSegment, TextOf, Lacks;
      if |gs| == 1 {
        SplitNone(s, d);
        assert Cores(gs[1..]) == [];
      } else {
        SplitAtFirst(s, d, Linked(gs[1..], d));
        SplitSegments(gs[1..], d);
      }
    }
  }
}
