/**
  Face-line recognition of `Object::parse_faces` (src/model/obj.rs). Each
  line of the file is searched for the pattern

      f \s+ D/D/D \s+ D/D/D \s+ D/D/D        (D: one or more digits)

  and every line that contains it contributes one face: its nine digit
  groups parsed as `u32`, in textual order, still 1-based. Lines without the
  pattern are skipped; a group above `u32::MAX` fails the whole parse.

  The pattern has no alternatives and each run is followed by a character
  the run cannot contain (`/` after digits, a digit after spaces), so greedy
  matching has exactly one way to succeed at a given start: the recogniser
  below takes maximal runs. `\s` is Unicode White_Space; `\d` is read as the
  ASCII digits.
 */
module ObjParse {
  import opened Numeric
  import opened Results

  // ---------------------------------------------------------------------
  // Characters and runs

  predicate IsDigit(ch: char) {
    '0' <= ch <= '9'
  }

  /** The characters with the Unicode White_Space property. */
  predicate IsSpace(ch: char) {
    || '\t' <= ch <= '\r'
    || ch == ' '
    || ch == '\U{85}'
    || ch == '\U{A0}'
    || ch == '\U{1680}'
    || '\U{2000}' <= ch <= '\U{200A}'
    || ch == '\U{2028}'
    || ch == '\U{2029}'
    || ch == '\U{202F}'
    || ch == '\U{205F}'
    || ch == '\U{3000}'
  }

  /** A non-empty string of digits. */
  predicate Digits(t: string) {
    |t| > 0 && forall k :: 0 <= k < |t| ==> IsDigit(t[k])
  }

  /** A non-empty string of white space. */
  predicate Spaces(t: string) {
    |t| > 0 && forall k :: 0 <= k < |t| ==> IsSpace(t[k])
  }

  /** `u` occurs in `s` at position `p`. */
  predicate At(s: string, p: nat, u: string) {
    p + |u| <= |s| && forall i {:trigger u[i]} :: 0 <= i < |u| ==> s[p + i] == u[i]
  }

  /** An occurrence of `u + v` is an occurrence of `u` followed by one of `v`. */
  lemma AtConcat(s: string, p: nat, u: string, v: string)
    ensures At(s, p, u + v) <==> At(s, p, u) && At(s, p + |u|, v)
  {
    if At(s, p, u) && At(s, p + |u|, v) {
      forall i | 0 <= i < |u + v| ensures s[p + i] == (u + v)[i] {
        if i >= |u| {
          assert s[p + |u| + (i - |u|)] == v[i - |u|];
        }
      }
    }
    if At(s, p, u + v) {
      forall i | 0 <= i < |u| ensures s[p + i] == u[i] {
        assert s[p + i] == (u + v)[i];
      }
      forall i | 0 <= i < |v| ensures s[p + |u| + i] == v[i] {
        assert s[p + (|u| + i)] == (u + v)[|u| + i];
      }
    }
  }

  /** `u` occurs in `x + u` right after `x`. */
  lemma AtEnd(x: string, u: string)
    ensures At(x + u, |x|, u)
  {
    forall i | 0 <= i < |u| ensures (x + u)[|x| + i] == u[i] {
    }
  }

  /** An occurrence stays one when more text follows. */
  lemma AtExtend(s: string, p: nat, u: string, y: string)
    requires At(s, p, u)
    ensures At(s + y, p, u)
  {
    forall i | 0 <= i < |u| ensures (s + y)[p + i] == u[i] {
      assert s[p + i] == u[i];
    }
  }

  /** Where the run of digits starting at `p` ends. */
  function DigitEnd(s: string, p: nat): (j: nat)
    requires p <= |s|
    ensures p <= j <= |s|
    ensures forall k :: p <= k < j ==> IsDigit(s[k])
    ensures j == |s| || !IsDigit(s[j])
    decreases |s| - p
  {
    if p < |s| && IsDigit(s[p]) then DigitEnd(s, p + 1) else p
  }

  /** Where the run of white space starting at `p` ends. */
  function SpaceEnd(s: string, p: nat): (j: nat)
    requires p <= |s|
    ensures p <= j <= |s|
    ensures forall k :: p <= k < j ==> IsSpace(s[k])
    ensures j == |s| || !IsSpace(s[j])
    decreases |s| - p
  {
    if p < |s| && IsSpace(s[p]) then SpaceEnd(s, p + 1) else p
  }

  /** `u` occurs at `p` exactly when the slice of `s` there is `u`. */
  lemma AtSlice(s: string, p: nat, u: string)
    ensures At(s, p, u) <==> p + |u| <= |s| && s[p..p + |u|] == u
  {
    if p + |u| <= |s| && !At(s, p, u) {
      var i :| 0 <= i < |u| && s[p + i] != u[i];
      assert s[p..p + |u|][i] != u[i];
    }
  }

  /** A run of digits from `p` to `j` that cannot be extended is the run
      `DigitEnd` reports. */
  lemma {:induction false} DigitsTo(s: string, p: nat, j: nat)
    requires p <= j <= |s| && forall k :: p <= k < j ==> IsDigit(s[k])
    requires j == |s| || !IsDigit(s[j])
    ensures DigitEnd(s, p) == j
    decreases j - p
  {
    if p < j {
      DigitsTo(s, p + 1, j);
    }
  }

  /** A run of white space from `p` to `j` that cannot be extended is the
      run `SpaceEnd` reports. */
  lemma {:induction false} SpacesTo(s: string, p: nat, j: nat)
    requires p <= j <= |s| && forall k :: p <= k < j ==> IsSpace(s[k])
    requires j == |s| || !IsSpace(s[j])
    ensures SpaceEnd(s, p) == j
    decreases j - p
  {
    if p < j {
      SpacesTo(s, p + 1, j);
    }
  }

  /** A maximal run of digits found at `p` is the run `DigitEnd` reports. */
  lemma DigitRun(s: string, p: nat, u: string)
    requires At(s, p, u) && Digits(u)
    requires p + |u| == |s| || !IsDigit(s[p + |u|])
    ensures DigitEnd(s, p) == p + |u|
  {
    assert forall k :: p <= k < p + |u| ==> s[k] == u[k - p];
    DigitsTo(s, p, p + |u|);
  }

  /** A run of white space followed by a digit is the run `SpaceEnd` reports. */
  lemma SpaceRun(s: string, p: nat, u: string)
    requires At(s, p, u) && Spaces(u)
    requires p + |u| < |s| && IsDigit(s[p + |u|])
    ensures SpaceEnd(s, p) == p + |u|
  {
    assert forall k :: p <= k < p + |u| ==> s[k] == u[k - p];
    DigitIsNotSpace(s[p + |u|]);
    SpacesTo(s, p, p + |u|);
  }

  // ---------------------------------------------------------------------
  // The pattern

  /** `a/b/c` occurs at `p`. */
  predicate TripleOccurs(s: string, p: nat, a: string, b: string, c: string) {
    && At(s, p, a)
    && p + |a| < |s| && s[p + |a|] == '/'
    && At(s, p + |a| + 1, b)
    && p + |a| + 1 + |b| < |s| && s[p + |a| + 1 + |b|] == '/'
    && At(s, p + |a| + 1 + |b| + 1, c)
  }

  /** The length of `a/b/c`. */
  function TripleLen(a: string, b: string, c: string): nat {
    |a| + 1 + |b| + 1 + |c|
  }

  /** The pieces of a match have the shapes the pattern demands. */
  predicate WellShaped(ws: seq<string>, gs: seq<string>) {
    && |ws| == 3 && |gs| == 9
    && (forall k :: 0 <= k < 3 ==> Spaces(ws[k]))
    && (forall k :: 0 <= k < 9 ==> Digits(gs[k]))
  }

  /** A match: where it starts and ends, the three runs of white space and
      the nine capture groups. */
  datatype Match = Match(start: nat, spaces: seq<string>, groups: seq<string>, end: nat)

  /** The length of the `k`-th triple of a match. */
  function GroupsLen(m: Match, k: nat): nat
    requires k < 3 && |m.groups| == 9
  {
    TripleLen(m.groups[3 * k], m.groups[3 * k + 1], m.groups[3 * k + 2])
  }

  /** Where the `k`-th run of white space of a match begins. */
  function SpaceStart(m: Match, k: nat): nat
    requires k < 3 && |m.spaces| == 3 && |m.groups| == 9
  {
    if k == 0 then m.start + 1
    else if k == 1 then m.start + 1 + |m.spaces[0]| + GroupsLen(m, 0)
    else m.start + 1 + |m.spaces[0]| + GroupsLen(m, 0) + |m.spaces[1]| + GroupsLen(m, 1)
  }

  /** Where the `k`-th triple of a match begins. */
  function GroupsStart(m: Match, k: nat): nat
    requires k < 3 && |m.spaces| == 3 && |m.groups| == 9
  {
    SpaceStart(m, k) + |m.spaces[k]|
  }

  /** Where the `k`-th triple of a match ends. */
  function GroupsEnd(m: Match, k: nat): nat
    requires k < 3 && |m.spaces| == 3 && |m.groups| == 9
  {
    GroupsStart(m, k) + GroupsLen(m, k)
  }

  /** The `k`-th run of white space and the `k`-th triple are in place. */
  predicate PieceAt(s: string, m: Match, k: nat)
    requires k < 3 && |m.spaces| == 3 && |m.groups| == 9
  {
    && At(s, SpaceStart(m, k), m.spaces[k])
    && TripleOccurs(s, GroupsStart(m, k), m.groups[3 * k], m.groups[3 * k + 1], m.groups[3 * k + 2])
  }

  /** `m` is a match of `face_rex` in `s`: `f`, then three times white space
      and a triple `D/D/D`, with a last digit run that cannot be extended. */
  predicate MatchesAt(s: string, m: Match) {
    && WellShaped(m.spaces, m.groups)
    && m.start < |s| && s[m.start] == 'f'
    && PieceAt(s, m, 0) && PieceAt(s, m, 1) && PieceAt(s, m, 2)
    && m.end == GroupsEnd(m, 2)
    && (m.end == |s| || !IsDigit(s[m.end]))
  }

  /** The triple `D/D/D` at `p`, with maximal digit runs: its three groups
      and where it ends. */
  function TripleAt(s: string, p: nat): (r: Option<(seq<string>, nat)>)
    requires p <= |s|
    ensures r.Some? ==>
      && |r.value.0| == 3
      && (forall k :: 0 <= k < 3 ==> Digits(r.value.0[k]))
      && TripleOccurs(s, p, r.value.0[0], r.value.0[1], r.value.0[2])
      && r.value.1 == p + TripleLen(r.value.0[0], r.value.0[1], r.value.0[2])
      && (r.value.1 == |s| || !IsDigit(s[r.value.1]))
  {
    var a := DigitEnd(s, p);
    if a == p || a == |s| || s[a] != '/' then None
    else
      var b := DigitEnd(s, a + 1);
      if b == a + 1 || b == |s| || s[b] != '/' then None
      else
        var c := DigitEnd(s, b + 1);
        if c == b + 1 then None
        else Some(([s[p..a], s[a + 1..b], s[b + 1..c]], c))
  }

  /** White space at `p`: where its maximal run ends, if it is not empty. */
  function SpacesAt(s: string, p: nat): (r: Option<nat>)
    requires p <= |s|
    ensures r.Some? ==> p < r.value <= |s| && Spaces(s[p..r.value])
    ensures r.Some? ==> r.value == |s| || !IsSpace(s[r.value])
  {
    var j := SpaceEnd(s, p);
    if j == p then None else Some(j)
  }

  /** `face_rex` tried at `start`. When it succeeds the result is a match of
      the pattern at `start` (MatchAtComplete shows it finds every one). */
  function MatchAt(s: string, start: nat): (r: Option<Match>)
    requires start <= |s|
    ensures r.Some? ==> r.value.start == start && MatchesAt(s, r.value)
  {
    RecogniseSound(s, start);
    Recognise(s, start)
  }

  /** The steps of the recogniser: an `f`, then three times a run of white
      space and a triple. */
  function Recognise(s: string, start: nat): Option<Match>
    requires start <= |s|
  {
    if start == |s| || s[start] != 'f' then None
    else match SpacesAt(s, start + 1)
      case None => None
      case Some(p0) => match TripleAt(s, p0)
      case None => None
      case Some(t0) => match SpacesAt(s, t0.1)
      case None => None
      case Some(p1) => match TripleAt(s, p1)
      case None => None
      case Some(t1) => match SpacesAt(s, t1.1)
      case None => None
      case Some(p2) => match TripleAt(s, p2)
      case None => None
      case Some(t2) => Some(Assemble(s, start, p0, t0, p1, t1, p2, t2))
  }

  /** What the recogniser returns is a match at `start`. */
  lemma RecogniseSound(s: string, start: nat)
    requires start <= |s|
    ensures Recognise(s, start).Some? ==>
      Recognise(s, start).value.start == start && MatchesAt(s, Recognise(s, start).value)
  {
    if Recognise(s, start).Some? {
      var p0 := SpacesAt(s, start + 1).value;
      var t0 := TripleAt(s, p0).value;
      var p1 := SpacesAt(s, t0.1).value;
      var t1 := TripleAt(s, p1).value;
      var p2 := SpacesAt(s, t1.1).value;
      var t2 := TripleAt(s, p2).value;
      assert Recognise(s, start) == Some(Assemble(s, start, p0, t0, p1, t1, p2, t2));
      MatchFound(s, start, p0, t0, p1, t1, p2, t2);
    }
  }

  /** A non-empty run of white space from `q` to `p`. */
  predicate SpaceFound(s: string, q: nat, p: nat) {
    q < p <= |s| && Spaces(s[q..p])
  }

  /** A triple `t.0[0]/t.0[1]/t.0[2]` of digit groups from `p` to `t.1`. */
  predicate TripleFound(s: string, p: nat, t: (seq<string>, nat)) {
    && |t.0| == 3
    && Digits(t.0[0]) && Digits(t.0[1]) && Digits(t.0[2])
    && TripleOccurs(s, p, t.0[0], t.0[1], t.0[2])
    && t.1 == p + TripleLen(t.0[0], t.0[1], t.0[2])
  }

  /** The match built from the runs and triples the recogniser found. */
  function Assemble(s: string, start: nat, p0: nat, t0: (seq<string>, nat), p1: nat,
                    t1: (seq<string>, nat), p2: nat, t2: (seq<string>, nat)): Match
    requires start < p0 <= t0.1 < p1 <= t1.1 < p2 <= |s|
    requires |t0.0| == 3 && |t1.0| == 3 && |t2.0| == 3
  {
    Match(start, [s[start + 1..p0], s[t0.1..p1], s[t1.1..p2]],
          [t0.0[0], t0.0[1], t0.0[2], t1.0[0], t1.0[1], t1.0[2], t2.0[0], t2.0[1], t2.0[2]],
          t2.1)
  }

  /** What the recogniser found is a match. */
  lemma MatchFound(s: string, start: nat, p0: nat, t0: (seq<string>, nat), p1: nat,
                   t1: (seq<string>, nat), p2: nat, t2: (seq<string>, nat))
    requires start < |s| && s[start] == 'f'
    requires SpaceFound(s, start + 1, p0) && TripleFound(s, p0, t0)
    requires SpaceFound(s, t0.1, p1) && TripleFound(s, p1, t1)
    requires SpaceFound(s, t1.1, p2) && TripleFound(s, p2, t2)
    requires t2.1 == |s| || !IsDigit(s[t2.1])
    ensures start < p0 <= t0.1 < p1 <= t1.1 < p2 <= |s|
    ensures |t0.0| == 3 && |t1.0| == 3 && |t2.0| == 3
    ensures MatchesAt(s, Assemble(s, start, p0, t0, p1, t1, p2, t2))
  {
    var m := Assemble(s, start, p0, t0, p1, t1, p2, t2);
    PieceFound(s, m, 0, start + 1, t0, p0);
    PieceFound(s, m, 1, t0.1, t1, p1);
    PieceFound(s, m, 2, t1.1, t2, p2);
    assert forall k :: 0 <= k < 3 ==> Spaces(m.spaces[k]);
    assert forall k :: 0 <= k < 9 ==> Digits(m.groups[k]) by {
      forall k | 0 <= k < 9 ensures Digits(m.groups[k]) {
        if k < 3 { assert m.groups[k] == t0.0[k]; }
        else if k < 6 { assert m.groups[k] == t1.0[k - 3]; }
        else { assert m.groups[k] == t2.0[k - 6]; }
      }
    }
  }

  /** One run of white space and the triple after it, found by the
      recogniser, are the `k`-th piece of the match built from them. */
  lemma PieceFound(s: string, m: Match, k: nat, q: nat, t: (seq<string>, nat), p: nat)
    requires k < 3 && |m.spaces| == 3 && |m.groups| == 9
    requires SpaceStart(m, k) == q && q < p <= |s| && m.spaces[k] == s[q..p]
    requires |t.0| == 3
    requires m.groups[3 * k] == t.0[0] && m.groups[3 * k + 1] == t.0[1] && m.groups[3 * k + 2] == t.0[2]
    requires TripleOccurs(s, p, t.0[0], t.0[1], t.0[2]) && t.1 == p + TripleLen(t.0[0], t.0[1], t.0[2])
    ensures GroupsStart(m, k) == p && GroupsEnd(m, k) == t.1 && PieceAt(s, m, k)
    ensures k < 2 ==> SpaceStart(m, k + 1) == t.1
  {
    AtSlice(s, q, m.spaces[k]);
  }

  // ---------------------------------------------------------------------
  // The recogniser misses no match

  /** The recogniser finds every triple: one whose last digit run cannot be
      extended is what TripleAt returns. */
  lemma TripleAtComplete(s: string, p: nat, a: string, b: string, c: string)
    requires Digits(a) && Digits(b) && Digits(c) && TripleOccurs(s, p, a, b, c)
    requires p + TripleLen(a, b, c) == |s| || !IsDigit(s[p + TripleLen(a, b, c)])
    ensures IsDigit(s[p])
    ensures TripleAt(s, p) == Some(([a, b, c], p + TripleLen(a, b, c)))
  {
    var pa := p + |a|;
    var pb := pa + 1 + |b|;
    var pc := pb + 1 + |c|;
    assert s[p + 0] == a[0];
    DigitRun(s, p, a);
    DigitRun(s, pa + 1, b);
    DigitRun(s, pb + 1, c);
    AtSlice(s, p, a);
    AtSlice(s, pa + 1, b);
    AtSlice(s, pb + 1, c);
    TripleAtIs(s, p, pa, pb, pc);
  }

  /** TripleAt with the three digit runs it looks for in place. */
  lemma TripleAtIs(s: string, p: nat, pa: nat, pb: nat, pc: nat)
    requires p < pa < |s| && DigitEnd(s, p) == pa && s[pa] == '/'
    requires pa + 1 < pb < |s| && DigitEnd(s, pa + 1) == pb && s[pb] == '/'
    requires pb + 1 < pc && DigitEnd(s, pb + 1) == pc
    ensures TripleAt(s, p) == Some(([s[p..pa], s[pa + 1..pb], s[pb + 1..pc]], pc))
  {
  }

  /** Digits and white space are disjoint. */
  lemma DigitIsNotSpace(ch: char)
    requires IsDigit(ch)
    ensures !IsSpace(ch)
  {
  }

  lemma SpaceIsNotDigit(ch: char)
    requires IsSpace(ch)
    ensures !IsDigit(ch)
  {
  }

  /** White space followed by a digit is what SpacesAt reports. */
  lemma SpacesAtComplete(s: string, p: nat, w: string)
    requires At(s, p, w) && Spaces(w)
    requires p + |w| < |s| && IsDigit(s[p + |w|])
    ensures SpacesAt(s, p) == Some(p + |w|) && s[p..p + |w|] == w
    ensures !IsDigit(s[p])
  {
    assert s[p] == w[0];
    SpaceRun(s, p, w);
    AtSlice(s, p, w);
  }

  /** The `k`-th piece of a match, white space from `q` and the triple `t`
      from `p`, is what the recogniser finds there. */
  lemma PieceComplete(s: string, m: Match, k: nat)
    requires MatchesAt(s, m) && k < 3
    ensures SpaceStart(m, k) <= |s| && GroupsStart(m, k) <= |s|
    ensures SpacesAt(s, SpaceStart(m, k)) == Some(GroupsStart(m, k))
    ensures TripleAt(s, GroupsStart(m, k)) == Some(TripleOf(m, k))
  {
    PieceFacts(s, m, k);
    TripleEnds(s, m, k);
    RunsComplete(s, SpaceStart(m, k), m.spaces[k], GroupsStart(m, k),
                 m.groups[3 * k], m.groups[3 * k + 1], m.groups[3 * k + 2], GroupsEnd(m, k));
  }

  /** The facts about the `k`-th piece of a match that the recogniser
      relies on. */
  lemma PieceFacts(s: string, m: Match, k: nat)
    requires MatchesAt(s, m) && k < 3
    ensures Spaces(m.spaces[k]) && At(s, SpaceStart(m, k), m.spaces[k])
    ensures GroupsStart(m, k) == SpaceStart(m, k) + |m.spaces[k]|
    ensures Digits(m.groups[3 * k]) && Digits(m.groups[3 * k + 1]) && Digits(m.groups[3 * k + 2])
    ensures TripleOccurs(s, GroupsStart(m, k), m.groups[3 * k], m.groups[3 * k + 1], m.groups[3 * k + 2])
    ensures GroupsEnd(m, k) == GroupsStart(m, k) + TripleLen(m.groups[3 * k], m.groups[3 * k + 1], m.groups[3 * k + 2])
  {
    assert PieceAt(s, m, k);
  }

  /** White space `w` at `q` followed by a triple `a/b/c` that no digit
      follows is what SpacesAt and TripleAt report. */
  lemma RunsComplete(s: string, q: nat, w: string, p: nat, a: string, b: string, c: string, e: nat)
    requires Spaces(w) && At(s, q, w) && p == q + |w|
    requires Digits(a) && Digits(b) && Digits(c) && TripleOccurs(s, p, a, b, c)
    requires e == p + TripleLen(a, b, c) && (e == |s| || !IsDigit(s[e]))
    ensures SpacesAt(s, q) == Some(p) && TripleAt(s, p) == Some(([a, b, c], e))
  {
    TripleAtComplete(s, p, a, b, c);
    SpacesAtComplete(s, q, w);
  }

  /** No digit follows a triple of a match: white space comes next, or the
      match ends there. */
  lemma TripleEnds(s: string, m: Match, k: nat)
    requires MatchesAt(s, m) && k < 3
    ensures GroupsEnd(m, k) == |s| || !IsDigit(s[GroupsEnd(m, k)])
  {
    if k < 2 {
      var e := GroupsEnd(m, k);
      assert PieceAt(s, m, k + 1);
      assert SpaceStart(m, k + 1) == e;
      assert Spaces(m.spaces[k + 1]);
      assert s[e + 0] == m.spaces[k + 1][0];
      SpaceIsNotDigit(s[e]);
    }
  }

  /** The `k`-th triple of a match as TripleAt reports it: its three
      groups and where it ends. */
  function TripleOf(m: Match, k: nat): (seq<string>, nat)
    requires k < 3 && |m.spaces| == 3 && |m.groups| == 9
  {
    ([m.groups[3 * k], m.groups[3 * k + 1], m.groups[3 * k + 2]], GroupsEnd(m, k))
  }

  /** The runs of white space of a match are where it says they are. */
  lemma SpacesOfMatch(s: string, m: Match)
    requires MatchesAt(s, m)
    ensures |m.spaces| == 3 && |m.groups| == 9 && m.end == GroupsEnd(m, 2)
    ensures |m.spaces[0]| > 0 && At(s, SpaceStart(m, 0), m.spaces[0])
    ensures |m.spaces[1]| > 0 && At(s, SpaceStart(m, 1), m.spaces[1])
    ensures |m.spaces[2]| > 0 && At(s, SpaceStart(m, 2), m.spaces[2])
  {
    assert PieceAt(s, m, 0) && PieceAt(s, m, 1) && PieceAt(s, m, 2);
    assert Spaces(m.spaces[0]) && Spaces(m.spaces[1]) && Spaces(m.spaces[2]);
  }

  /** The pieces of a match, taken back out of the string, rebuild it. */
  lemma Reassemble(s: string, m: Match)
    requires |m.spaces| == 3 && |m.groups| == 9 && m.end == GroupsEnd(m, 2)
    requires |m.spaces[0]| > 0 && At(s, SpaceStart(m, 0), m.spaces[0])
    requires |m.spaces[1]| > 0 && At(s, SpaceStart(m, 1), m.spaces[1])
    requires |m.spaces[2]| > 0 && At(s, SpaceStart(m, 2), m.spaces[2])
    ensures m.start < GroupsStart(m, 0) <= GroupsEnd(m, 0) < GroupsStart(m, 1)
    ensures GroupsStart(m, 1) <= GroupsEnd(m, 1) < GroupsStart(m, 2) <= |s|
    ensures Assemble(s, m.start, GroupsStart(m, 0), TripleOf(m, 0), GroupsStart(m, 1), TripleOf(m, 1),
                     GroupsStart(m, 2), TripleOf(m, 2)) == m
  {
    var p0, p1, p2 := GroupsStart(m, 0), GroupsStart(m, 1), GroupsStart(m, 2);
    var t0, t1, t2 := TripleOf(m, 0), TripleOf(m, 1), TripleOf(m, 2);
    AtSlice(s, m.start + 1, m.spaces[0]);
    AtSlice(s, t0.1, m.spaces[1]);
    AtSlice(s, t1.1, m.spaces[2]);
    assert Assemble(s, m.start, p0, t0, p1, t1, p2, t2).spaces == m.spaces;
    assert Assemble(s, m.start, p0, t0, p1, t1, p2, t2).groups == m.groups;
  }

  /** The recogniser, given the runs and triples it looks for, returns the
      match assembled from them. */
  lemma MatchAtIs(s: string, start: nat, p0: nat, t0: (seq<string>, nat), p1: nat,
                  t1: (seq<string>, nat), p2: nat, t2: (seq<string>, nat))
    requires start < |s| && s[start] == 'f'
    requires SpacesAt(s, start + 1) == Some(p0) && TripleAt(s, p0) == Some(t0)
    requires SpacesAt(s, t0.1) == Some(p1) && TripleAt(s, p1) == Some(t1)
    requires SpacesAt(s, t1.1) == Some(p2) && TripleAt(s, p2) == Some(t2)
    requires start < p0 <= t0.1 < p1 <= t1.1 < p2 <= |s|
    requires |t0.0| == 3 && |t1.0| == 3 && |t2.0| == 3
    ensures Recognise(s, start) == Some(Assemble(s, start, p0, t0, p1, t1, p2, t2))
  {
  }

  /** Every match of the pattern at `m.start` is the one MatchAt returns. */
  lemma MatchAtComplete(s: string, m: Match)
    requires MatchesAt(s, m)
    ensures MatchAt(s, m.start) == Some(m)
  {
    RecogniseComplete(s, m);
  }

  /** Every match of the pattern at `m.start` is what the recogniser finds. */
  lemma RecogniseComplete(s: string, m: Match)
    requires MatchesAt(s, m)
    ensures m.start <= |s| && Recognise(s, m.start) == Some(m)
  {
    SpacesOfMatch(s, m);
    Reassemble(s, m);
    PiecesComplete(s, m);
    MatchAtIs(s, m.start, GroupsStart(m, 0), TripleOf(m, 0), GroupsStart(m, 1), TripleOf(m, 1),
              GroupsStart(m, 2), TripleOf(m, 2));
  }

  /** All three pieces of a match are what the recogniser finds. */
  lemma PiecesComplete(s: string, m: Match)
    requires MatchesAt(s, m)
    ensures SpaceStart(m, 0) == m.start + 1
    ensures GroupsEnd(m, 0) == SpaceStart(m, 1) && GroupsEnd(m, 1) == SpaceStart(m, 2)
    ensures SpacesAt(s, SpaceStart(m, 0)) == Some(GroupsStart(m, 0)) && TripleAt(s, GroupsStart(m, 0)) == Some(TripleOf(m, 0))
    ensures SpacesAt(s, SpaceStart(m, 1)) == Some(GroupsStart(m, 1)) && TripleAt(s, GroupsStart(m, 1)) == Some(TripleOf(m, 1))
    ensures SpacesAt(s, SpaceStart(m, 2)) == Some(GroupsStart(m, 2)) && TripleAt(s, GroupsStart(m, 2)) == Some(TripleOf(m, 2))
  {
    PieceComplete(s, m, 0);
    PieceComplete(s, m, 1);
    PieceComplete(s, m, 2);
  }

  // ---------------------------------------------------------------------
  // Searching a line: the leftmost match

  /** The leftmost match starting at `i` or later. */
  function FirstMatch(s: string, i: nat): (r: Option<Match>)
    requires i <= |s|
    ensures r.Some? ==> MatchesAt(s, r.value) && i <= r.value.start
    ensures forall m :: MatchesAt(s, m) && i <= m.start ==>
              r.Some? && (r.value.start < m.start || r.value == m)
    decreases |s| - i
  {
    if i == |s| then None
    else match MatchAt(s, i)
      case Some(m) =>
        OnlyMatchAt(s, i, m);
        Some(m)
      case None =>
        NoMatchAt(s, i);
        FirstMatch(s, i + 1)
  }

  /** The match MatchAt finds is the only one starting there. */
  lemma OnlyMatchAt(s: string, i: nat, m: Match)
    requires i <= |s| && MatchAt(s, i) == Some(m)
    ensures forall m' :: MatchesAt(s, m') && m'.start == i ==> m' == m
  {
    forall m' | MatchesAt(s, m') && m'.start == i ensures m' == m {
      MatchAtComplete(s, m');
    }
  }

  /** When MatchAt finds nothing, no match starts there. */
  lemma NoMatchAt(s: string, i: nat)
    requires i <= |s| && MatchAt(s, i).None?
    ensures forall m' :: MatchesAt(s, m') ==> m'.start != i
  {
    forall m' | MatchesAt(s, m') ensures m'.start != i {
      MatchAtComplete(s, m');
    }
  }

  /** `face_rex.captures(line)`: the leftmost match of the pattern. It is a
      match, no match starts earlier, and none other starts where it does;
      there is none only when the line contains no match at all. */
  function Captures(s: string): (r: Option<Match>)
    ensures r.Some? ==> MatchesAt(s, r.value)
    ensures forall m :: MatchesAt(s, m) ==> r.Some? && (r.value.start < m.start || r.value == m)
  {
    FirstMatch(s, 0)
  }

  // ---------------------------------------------------------------------
  // Numbers

  /** The value of a decimal digit; other characters never reach it. */
  function DigitValue(ch: char): nat {
    if IsDigit(ch) then ch as int - '0' as int else 0
  }

  /** The decimal digit of `d`. */
  function DigitChar(d: nat): (ch: char)
    requires d < 10
    ensures IsDigit(ch) && DigitValue(ch) == d
  {
    ('0' as int + d) as char
  }

  /** The value of a digit string, accumulated left to right as
      `str::parse` does, without a bound. */
  function Value(t: string): nat {
    if |t| == 0 then 0 else 10 * Value(t[..|t| - 1]) + DigitValue(t[|t| - 1])
  }

  /** `text.parse::<u32>()` of a string of digits: its value, or an overflow
      error when the value does not fit. */
  function ParseU32(t: string): (r: Result<U32>)
    ensures r.Ok? <==> Value(t) <= U32_MAX
    ensures r.Ok? ==> r.value == Value(t)
  {
    if Value(t) <= U32_MAX then Ok(Value(t)) else Err(IntegerOverflow)
  }

  /** The shortest decimal text of `n`. */
  function Show(n: nat): (t: string)
    ensures Digits(t)
    ensures |t| > 1 ==> t[0] != '0'
  {
    if n < 10 then [DigitChar(n)]
    else
      var u := Show(n / 10);
      assert (u + [DigitChar(n % 10)])[0] == u[0];
      u + [DigitChar(n % 10)]
  }

  /** Reading the decimal text of a number gives the number back. */
  lemma {:induction false} ValueShow(n: nat)
    ensures Value(Show(n)) == n
  {
    if n >= 10 {
      var u := Show(n / 10);
      assert (u + [DigitChar(n % 10)])[..|u|] == u;
      ValueShow(n / 10);
    }
  }

  /** Leading zeros do not change the value. */
  lemma {:induction false} ValueLeadingZero(t: string)
    ensures Value("0" + t) == Value(t)
    decreases |t|
  {
    if |t| > 0 {
      var u := t[..|t| - 1];
      assert ("0" + t)[..|t|] == "0" + u;
      ValueLeadingZero(u);
    }
  }

  /** A number's text parses back to the number exactly when it fits in a
      `u32`. */
  lemma ParseShow(n: nat)
    ensures ParseU32(Show(n)) == if n <= U32_MAX then Ok(n) else Err(IntegerOverflow)
  {
    ValueShow(n);
  }

  // ---------------------------------------------------------------------
  // Faces

  /** One corner of a face: 1-based vertex, texture and normal indices. */
  datatype Corner = Corner(vertex: U32, texture: U32, normal: U32)

  /** A face, `[[u32; 3]; 3]`: three corners. */
  datatype Face = Face(c0: Corner, c1: Corner, c2: Corner)
  {
    /** The corner at index `k`. */
    function At(k: nat): Corner
      requires k < 3
    {
      if k == 0 then c0 else if k == 1 then c1 else c2
    }

    /** `face[k / 3][k % 3]`: the `k`-th of the nine numbers in reading order. */
    function Component(k: nat): U32
      requires k < 9
    {
      var c := At(k / 3);
      if k % 3 == 0 then c.vertex else if k % 3 == 1 then c.texture else c.normal
    }
  }

  /** Every one of the nine groups fits in a `u32`. */
  predicate Fits(gs: seq<string>) {
    forall k :: 0 <= k < |gs| ==> Value(gs[k]) <= U32_MAX
  }

  /** The nine captures of a match parsed into a face; the first group too
      large for a `u32` fails the conversion. */
  function ToFace(gs: seq<string>): (r: Result<Face>)
    requires |gs| == 9
    ensures r.Ok? <==> Fits(gs)
    ensures r.Ok? ==> forall k :: 0 <= k < 9 ==> r.value.Component(k) == Value(gs[k])
  {
    if !Fits(gs) then Err(IntegerOverflow)
    else
      var f := Face(Corner(Value(gs[0]), Value(gs[1]), Value(gs[2])),
                    Corner(Value(gs[3]), Value(gs[4]), Value(gs[5])),
                    Corner(Value(gs[6]), Value(gs[7]), Value(gs[8])));
      assert forall k :: 0 <= k < 9 ==> f.Component(k) == Value(gs[k]) by {
        forall k | 0 <= k < 9 ensures f.Component(k) == Value(gs[k]) {
          assert k / 3 == 0 || k / 3 == 1 || k / 3 == 2;
        }
      }
      Ok(f)
  }

  // ---------------------------------------------------------------------
  // Lines

  /** Where the first `'\n'` at or after `i` is, or `|text|` when none is. */
  function NewlineFrom(text: string, i: nat): (j: nat)
    requires i <= |text|
    ensures i <= j <= |text|
    ensures forall k :: i <= k < j ==> text[k] != '\n'
    ensures j < |text| ==> text[j] == '\n'
    decreases |text| - i
  {
    if i == |text| || text[i] == '\n' then i else NewlineFrom(text, i + 1)
  }

  /** A line that ended with `'\n'` loses a `'\r'` before it too. */
  function StripCr(line: string): string {
    if |line| > 0 && line[|line| - 1] == '\r' then line[..|line| - 1] else line
  }

  /** `str::lines`: the text split at each `'\n'`, a final line without one
      kept as it is, and no empty line after a final `'\n'`. */
  function Lines(text: string): (ls: seq<string>)
    ensures |ls| <= |text|
    decreases |text|
  {
    if |text| == 0 then []
    else
      var j := NewlineFrom(text, 0);
      if j == |text| then [text]
      else [StripCr(text[..j])] + Lines(text[j + 1..])
  }

  /** The text of lines each followed by `'\n'`. */
  function Terminated(ls: seq<string>): string {
    if |ls| == 0 then [] else ls[0] + "\n" + Terminated(ls[1..])
  }

  /** A line without `'\n'` that does not end in `'\r'`. */
  predicate PlainLine(l: string) {
    (forall k :: 0 <= k < |l| ==> l[k] != '\n') && (|l| == 0 || l[|l| - 1] != '\r')
  }

  /** Splitting newline-terminated plain lines gives them back. */
  lemma {:induction false} LinesOfTerminated(ls: seq<string>)
    requires forall i :: 0 <= i < |ls| ==> PlainLine(ls[i])
    ensures Lines(Terminated(ls)) == ls
  {
    if |ls| > 0 {
      assert PlainLine(ls[0]);
      LinesCons(ls[0], Terminated(ls[1..]));
      LinesOfTerminated(ls[1..]);
      assert ls == [ls[0]] + ls[1..];
    }
  }

  /** A plain line and its `'\n'` in front of more text come out as that
      line followed by the lines of the rest. */
  lemma LinesCons(l: string, rest: string)
    requires PlainLine(l)
    ensures Lines(l + "\n" + rest) == [l] + Lines(rest)
  {
    var text := l + "\n" + rest;
    assert forall k :: 0 <= k < |l| ==> text[k] == l[k];
    assert text[|l|] == '\n';
    NewlineAt(text, l);
    assert text[..|l|] == l;
    assert text[|l| + 1..] == rest;
  }

  /** The first `'\n'` of a text that starts with a line `l` and then one. */
  lemma NewlineAt(text: string, l: string)
    requires |l| < |text| && text[|l|] == '\n'
    requires forall k :: 0 <= k < |l| ==> text[k] != '\n'
    ensures NewlineFrom(text, 0) == |l|
  {
  }

  // ---------------------------------------------------------------------
  // parse_faces

  /** The faces one line contributes: none when it holds no match, else the
      face of its leftmost match, or the overflow error. */
  function LineFaces(l: string): (r: Result<seq<Face>>)
    ensures r.Ok? <==> (Captures(l).Some? ==> Fits(Captures(l).value.groups))
    ensures r.Ok? ==> |r.value| == if Captures(l).Some? then 1 else 0
    ensures r.Ok? && Captures(l).Some? ==>
      ToFace(Captures(l).value.groups).Ok? && r.value == [ToFace(Captures(l).value.groups).value]
  {
    match Captures(l)
    case None => Ok([])
    case Some(m) =>
      match ToFace(m.groups)
      case Err(e) => Err(e)
      case Ok(f) => Ok([f])
  }

  /** Two parse results one after the other: the faces of both, or the
      error of either. */
  function Both(a: Result<seq<Face>>, b: Result<seq<Face>>): (r: Result<seq<Face>>)
    ensures r.Ok? <==> a.Ok? && b.Ok?
    ensures r.Ok? ==> |r.value| == |a.value| + |b.value|
    ensures r.Ok? ==> r.value[..|a.value|] == a.value && r.value[|a.value|..] == b.value
  {
    match (a, b)
    case (Ok(x), Ok(y)) => Ok(x + y)
    case (Err(e), _) => Err(e)
    case (_, Err(e)) => Err(e)
  }

  /** The loop of `parse_faces` over a list of lines: the faces of the lines
      that hold the pattern, in order, or an overflow error when any such
      line has a group that does not fit. */
  function ParseFaceLines(ls: seq<string>): (r: Result<seq<Face>>)
    ensures r.Ok? <==> forall i :: 0 <= i < |ls| ==> LineFaces(ls[i]).Ok?
    ensures r.Ok? ==> |r.value| <= |ls|
  {
    if |ls| == 0 then Ok([])
    else
      var head, tail := LineFaces(ls[0]), ParseFaceLines(ls[1..]);
      assert tail.Ok? <==> forall i :: 1 <= i < |ls| ==> LineFaces(ls[i]).Ok? by {
        assert forall i :: 1 <= i < |ls| ==> ls[i] == ls[1..][i - 1];
      }
      Both(head, tail)
  }

  /** `Object::parse_faces`. */
  function ParseFaces(text: string): (r: Result<seq<Face>>)
    ensures r.Ok? <==> forall l :: l in Lines(text) && Captures(l).Some? ==> Fits(Captures(l).value.groups)
  {
    ParseFaceLines(Lines(text))
  }

  // ---------------------------------------------------------------------
  // Parsing splits over lines and inverts writing faces out

  /** Combining parse results is associative. */
  lemma BothAssociative(a: Result<seq<Face>>, b: Result<seq<Face>>, c: Result<seq<Face>>)
    ensures Both(a, Both(b, c)) == Both(Both(a, b), c)
  {
    if a.Ok? && b.Ok? && c.Ok? {
      assert a.value + (b.value + c.value) == (a.value + b.value) + c.value;
    }
  }

  /** The faces of two blocks of lines are those of the first block, then
      those of the second. */
  lemma {:induction false} ParseFaceLinesAppend(a: seq<string>, b: seq<string>)
    ensures ParseFaceLines(a + b) == Both(ParseFaceLines(a), ParseFaceLines(b))
  {
    if |a| > 0 {
      assert (a + b)[0] == a[0] && (a + b)[1..] == a[1..] + b;
      ParseFaceLinesAppend(a[1..], b);
      BothAssociative(LineFaces(a[0]), ParseFaceLines(a[1..]), ParseFaceLines(b));
    } else {
      assert a + b == b;
      assert ParseFaceLines(b).Ok? ==> ParseFaceLines(b).value == [] + ParseFaceLines(b).value;
    }
  }

  /** The face a line yields, as a list: that of its leftmost match when
      all nine groups fit, and none when the line has no match. */
  function FacesOfLine(l: string): seq<Face> {
    match Captures(l)
    case None => []
    case Some(m) => if Fits(m.groups) then [ToFace(m.groups).value] else []
  }

  /** The faces of a list of lines, line by line in order. */
  function MatchedFaces(ls: seq<string>): seq<Face> {
    if |ls| == 0 then [] else FacesOfLine(ls[0]) + MatchedFaces(ls[1..])
  }

  lemma MatchedFacesCons(l: string, rest: seq<string>)
    ensures MatchedFaces([l] + rest) == FacesOfLine(l) + MatchedFaces(rest)
  {
    assert ([l] + rest)[0] == l && ([l] + rest)[1..] == rest;
  }

  lemma {:induction false} MatchedFacesAppend(a: seq<string>, b: seq<string>)
    ensures MatchedFaces(a + b) == MatchedFaces(a) + MatchedFaces(b)
  {
    if |a| > 0 {
      var l, tail := a[0], a[1..];
      assert a == [l] + tail && a + b == [l] + (tail + b);
      MatchedFacesCons(l, tail + b);
      MatchedFacesCons(l, tail);
      MatchedFacesAppend(tail, b);
      assert FacesOfLine(l) + (MatchedFaces(tail) + MatchedFaces(b))
          == (FacesOfLine(l) + MatchedFaces(tail)) + MatchedFaces(b);
    } else {
      assert a + b == b;
    }
  }

  /** A successful parse of lines yields, in order, the face of the leftmost
      match of each line that has one. */
  lemma {:induction false} ParseFaceLinesFaces(ls: seq<string>)
    ensures ParseFaceLines(ls).Ok? ==> ParseFaceLines(ls).value == MatchedFaces(ls)
  {
    if |ls| > 0 && ParseFaceLines(ls).Ok? {
      ParseFaceLinesFaces(ls[1..]);
      var head := LineFaces(ls[0]);
      assert head.Ok?;
      assert head.value == FacesOfLine(ls[0]);
    }
  }

  /** A successful `parse_faces` returns, in file order, the face of the
      leftmost match of every line that has one; other lines add nothing. */
  lemma ParseFacesContents(text: string)
    ensures ParseFaces(text).Ok? ==> ParseFaces(text).value == MatchedFaces(Lines(text))
  {
    ParseFaceLinesFaces(Lines(text));
  }

  /** In the faces of a list of lines, line `i`'s face sits right after
      those of the lines before it. */
  lemma MatchedFacesAt(ls: seq<string>, i: nat)
    requires i < |ls| && Captures(ls[i]).Some? && Fits(Captures(ls[i]).value.groups)
    ensures ToFace(Captures(ls[i]).value.groups).Ok?
    ensures |MatchedFaces(ls[..i])| < |MatchedFaces(ls)|
    ensures MatchedFaces(ls)[|MatchedFaces(ls[..i])|] == ToFace(Captures(ls[i]).value.groups).value
  {
    assert ls == ls[..i] + ls[i..];
    MatchedFacesAppend(ls[..i], ls[i..]);
    assert ls[i..][0] == ls[i];
    assert FacesOfLine(ls[i]) == [ToFace(Captures(ls[i]).value.groups).value];
  }

  /** In a successful `parse_faces`, the face of line `i` sits right after
      the faces of the lines before it. */
  lemma ParseFacesLineAt(text: string, i: nat)
    requires ParseFaces(text).Ok? && i < |Lines(text)| && Captures(Lines(text)[i]).Some?
    ensures var ls := Lines(text);
      var k := |MatchedFaces(ls[..i])|;
      && ToFace(Captures(ls[i]).value.groups).Ok?
      && k < |ParseFaces(text).value|
      && ParseFaces(text).value[k] == ToFace(Captures(ls[i]).value.groups).value
  {
    var ls := Lines(text);
    ParseFacesContents(text);
    assert ls[i] in ls;
    MatchedFacesAt(ls, i);
  }

  /** `a/b/c`. */
  function TripleText(a: string, b: string, c: string): (t: string)
    ensures |t| == TripleLen(a, b, c)
  {
    a + "/" + b + "/" + c
  }

  /** The text of one corner, `v/t/n`. */
  function CornerText(c: Corner): string {
    TripleText(Show(c.vertex), Show(c.texture), Show(c.normal))
  }

  /** The line `f v/t/n v/t/n v/t/n` of a face. */
  function FaceLine(f: Face): string {
    "f" + (" " + CornerText(f.c0)) + (" " + CornerText(f.c1)) + (" " + CornerText(f.c2))
  }

  /** One line per face. */
  function FaceLines(faces: seq<Face>): (ls: seq<string>)
    ensures |ls| == |faces|
    ensures forall i :: 0 <= i < |faces| ==> ls[i] == FaceLine(faces[i])
  {
    if |faces| == 0 then [] else [FaceLine(faces[0])] + FaceLines(faces[1..])
  }

  /** The nine groups a face line is written with. */
  function FaceGroups(f: Face): seq<string> {
    [Show(f.c0.vertex), Show(f.c0.texture), Show(f.c0.normal),
     Show(f.c1.vertex), Show(f.c1.texture), Show(f.c1.normal),
     Show(f.c2.vertex), Show(f.c2.texture), Show(f.c2.normal)]
  }

  /** The text of a triple, found in a string, is the triple. */
  lemma TripleTextOccurs(s: string, p: nat, a: string, b: string, c: string)
    requires At(s, p, TripleText(a, b, c))
    ensures TripleOccurs(s, p, a, b, c)
  {
    AtConcat(s, p, a + "/" + b + "/", c);
    AtConcat(s, p, a + "/" + b, "/");
    AtConcat(s, p, a + "/", b);
    AtConcat(s, p, a, "/");
    assert s[p + |a| + 0] == "/"[0];
    assert s[p + |a| + 1 + |b| + 0] == "/"[0];
  }

  /** A space and the text of a triple, found where the `k`-th piece of `m`
      belongs, are that piece. */
  lemma PieceText(s: string, m: Match, k: nat)
    requires k < 3 && |m.spaces| == 3 && |m.groups| == 9 && m.spaces[k] == " "
    requires At(s, SpaceStart(m, k), " " + TripleText(m.groups[3 * k], m.groups[3 * k + 1], m.groups[3 * k + 2]))
    ensures PieceAt(s, m, k)
  {
    var t := TripleText(m.groups[3 * k], m.groups[3 * k + 1], m.groups[3 * k + 2]);
    AtConcat(s, SpaceStart(m, k), " ", t);
    TripleTextOccurs(s, GroupsStart(m, k), m.groups[3 * k], m.groups[3 * k + 1], m.groups[3 * k + 2]);
  }

  /** The pieces a face line is written with have the shapes of a match. */
  lemma FaceGroupsShaped(f: Face)
    ensures WellShaped([" ", " ", " "], FaceGroups(f))
  {
    var gs := FaceGroups(f);
    assert forall k :: 0 <= k < 9 ==> Digits(gs[k]) by {
      forall k | 0 <= k < 9 ensures Digits(gs[k]) {
        var c := if k < 3 then f.c0 else if k < 6 then f.c1 else f.c2;
        assert gs[k] == Show(c.vertex) || gs[k] == Show(c.texture) || gs[k] == Show(c.normal);
      }
    }
  }

  /** A face line is one match of the pattern, from its first character to
      its last, whose groups are the face's numbers. */
  lemma FaceLineMatches(f: Face)
    ensures MatchesAt(FaceLine(f), Match(0, [" ", " ", " "], FaceGroups(f), |FaceLine(f)|))
  {
    var s := FaceLine(f);
    var m := Match(0, [" ", " ", " "], FaceGroups(f), |s|);
    FaceGroupsShaped(f);
    var x0 := "f";
    var p0, p1, p2 := " " + CornerText(f.c0), " " + CornerText(f.c1), " " + CornerText(f.c2);
    assert s == x0 + p0 + p1 + p2;
    AtEnd(x0, p0);
    AtExtend(x0 + p0, 1, p0, p1);
    AtExtend(x0 + p0 + p1, 1, p0, p2);
    AtEnd(x0 + p0, p1);
    AtExtend(x0 + p0 + p1, |x0 + p0|, p1, p2);
    AtEnd(x0 + p0 + p1, p2);
    assert SpaceStart(m, 0) == 1;
    assert SpaceStart(m, 1) == |x0 + p0|;
    assert SpaceStart(m, 2) == |x0 + p0 + p1|;
    PieceText(s, m, 0);
    PieceText(s, m, 1);
    PieceText(s, m, 2);
  }

  /** The search finds the whole face line as the match. */
  lemma CapturesFaceLine(f: Face)
    ensures Captures(FaceLine(f)) == Some(Match(0, [" ", " ", " "], FaceGroups(f), |FaceLine(f)|))
  {
    var m := Match(0, [" ", " ", " "], FaceGroups(f), |FaceLine(f)|);
    FaceLineMatches(f);
    var r := Captures(FaceLine(f));
    assert r.Some? && (r.value.start < m.start || r.value == m);
  }

  /** The groups of a face line convert back to the face. */
  lemma ToFaceGroups(f: Face)
    ensures ToFace(FaceGroups(f)) == Ok(f)
  {
    var gs := FaceGroups(f);
    forall k | 0 <= k < 9 ensures Value(gs[k]) == f.Component(k) {
      var c := f.At(k / 3);
      var n := if k % 3 == 0 then c.vertex else if k % 3 == 1 then c.texture else c.normal;
      assert gs[k] == Show(n);
      ValueShow(n);
    }
    assert Fits(gs);
    var g := ToFace(gs).value;
    assert g.Component(0) == f.Component(0);
  }

  /** The line of one face yields exactly that face. */
  lemma LineFacesOfFaceLine(f: Face)
    ensures LineFaces(FaceLine(f)) == Ok([f])
  {
    CapturesFaceLine(f);
    ToFaceGroups(f);
  }

  /** Parsing the lines written for some faces gives those faces back. */
  lemma {:induction false} ParseFaceLinesOfFaces(faces: seq<Face>)
    ensures ParseFaceLines(FaceLines(faces)) == Ok(faces)
  {
    if |faces| > 0 {
      var ls := FaceLines(faces);
      var rest := faces[1..];
      assert ls[1..] == FaceLines(rest);
      assert ParseFaceLines(ls) == Both(LineFaces(ls[0]), ParseFaceLines(ls[1..]));
      LineFacesOfFaceLine(faces[0]);
      ParseFaceLinesOfFaces(rest);
      assert faces == [faces[0]] + rest;
    }
  }

  /** The characters a face line is written with. */
  predicate FaceChar(ch: char) {
    ch == 'f' || ch == ' ' || ch == '/' || IsDigit(ch)
  }

  /** A face line is a plain line: it holds no `'\n'` and ends in a digit. */
  lemma FaceLinePlain(f: Face)
    ensures PlainLine(FaceLine(f))
  {
    var s := FaceLine(f);
    forall c: Corner ensures forall k :: 0 <= k < |CornerText(c)| ==> FaceChar(CornerText(c)[k]) {
      var a, b, d := Show(c.vertex), Show(c.texture), Show(c.normal);
      assert forall k :: 0 <= k < |a| ==> FaceChar(a[k]);
      assert forall k :: 0 <= k < |b| ==> FaceChar(b[k]);
      assert forall k :: 0 <= k < |d| ==> FaceChar(d[k]);
    }
    assert forall k :: 0 <= k < |s| ==> FaceChar(s[k]);
    var d := Show(f.c2.normal);
    assert s[|s| - 1] == d[|d| - 1];
  }

  /** The text of newline-terminated face lines parses back to the faces. */
  lemma ParseFacesRoundTrip(faces: seq<Face>)
    ensures ParseFaces(Terminated(FaceLines(faces))) == Ok(faces)
  {
    var ls := FaceLines(faces);
    forall i | 0 <= i < |ls| ensures PlainLine(ls[i]) {
      FaceLinePlain(faces[i]);
    }
    LinesOfTerminated(ls);
    ParseFaceLinesOfFaces(faces);
  }
}
