/** The `<!-- table-id: X -->` comments that tie a table to its record:
    the global scan for `/<!-- table-id: ([\w-]+) -->/g` that
    `exportTableDataToFile` runs to collect every id, and the scan with the
    50-character proximity test that `findTableId` runs to pick one. */
module IdComments {
  import opened JsText
  import opened TableModel

  const Opening := "<!-- table-id: "
  const Closing := " -->"

  /** Where the id starts in a comment, how long the closing is, and how
      much longer than its id a comment is. */
  const OpeningLength: nat := |Opening|
  const ClosingLength: nat := |Closing|
  const CommentOverhead: nat := OpeningLength + ClosingLength

  /** `[\w-]`: an ASCII letter or digit, `_` or `-`. */
  predicate IsIdChar(c: char) {
    ('a' <= c <= 'z') || ('A' <= c <= 'Z') || ('0' <= c <= '9') || c == '_' || c == '-'
  }

  /** What `([\w-]+)` can capture. */
  predicate IsTableId(x: string) {
    |x| > 0 && forall i | 0 <= i < |x| :: IsIdChar(x[i])
  }

  /** The comment that carries `x`. */
  function IdComment(x: string): (c: string)
    ensures |c| == |x| + CommentOverhead
  {
    Opening + x + Closing
  }

  /** The length of the run of id characters `s` starts with. */
  function IdRunLength(s: string): (n: nat)
    ensures n <= |s|
  {
    if s != [] && IsIdChar(s[0]) then 1 + IdRunLength(s[1..]) else 0
  }

  /** The run is made of id characters and is not followed by one. */
  lemma {:induction false} IdRunLengthSpec(s: string)
    ensures forall i | 0 <= i < IdRunLength(s) :: IsIdChar(s[i])
    ensures IdRunLength(s) < |s| ==> !IsIdChar(s[IdRunLength(s)])
  {
    if s != [] && IsIdChar(s[0]) {
      IdRunLengthSpec(s[1..]);
    }
  }

  /** The id the pattern captures when it matches at the start of `s`. The
      greedy `[\w-]+` must be followed by ` -->`, which starts with a
      character it cannot consume, so the capture is the whole run of id
      characters after the opening. */
  function IdCommentAt(s: string): (r: Option<string>)
  {
    if |s| >= OpeningLength && s[..OpeningLength] == Opening then
      var n := IdRunLength(s[OpeningLength..]);
      if n > 0 && |s| >= CommentOverhead + n && s[OpeningLength + n..CommentOverhead + n] == Closing then
        Some(s[OpeningLength..OpeningLength + n])
      else None
    else None
  }

  lemma IdCommentAtSound(s: string)
    requires IdCommentAt(s).Some?
    ensures IsTableId(IdCommentAt(s).value) && IdComment(IdCommentAt(s).value) <= s
  {
    var n := IdRunLength(s[OpeningLength..]);
    IdRunLengthSpec(s[OpeningLength..]);
    var k := OpeningLength + n;
    assert s[..k + ClosingLength] == s[..OpeningLength] + s[OpeningLength..k] + s[k..][..ClosingLength];
  }

  /** A run of `k` id characters followed by another character has length `k`. */
  lemma {:induction false} IdRunLengthOf(s: string, k: nat)
    requires k < |s| && !IsIdChar(s[k])
    requires forall i | 0 <= i < k :: IsIdChar(s[i])
    ensures IdRunLength(s) == k
  {
    if k > 0 {
      IdRunLengthOf(s[1..], k - 1);
    }
  }

  /** The comment for a well-formed id ends its run of id characters. */
  lemma IdRunOfComment(s: string, x: string)
    requires IsTableId(x) && IdComment(x) <= s
    ensures IdRunLength(s[OpeningLength..]) == |x|
  {
    var t := s[OpeningLength..];
    assert t[..|x|] == x;
    assert t[|x|] == ' ';
    IdRunLengthOf(t, |x|);
  }

  /** The pattern matches at the start of `s` exactly when `s` starts with
      the comment for a well-formed id, and then it captures that id. */
  lemma IdCommentAtComplete(s: string, x: string)
    requires IsTableId(x) && IdComment(x) <= s
    ensures IdCommentAt(s) == Some(x)
  {
    IdRunOfComment(s, x);
    assert s[OpeningLength..OpeningLength + |x|] == x;
    assert s[OpeningLength + |x|..][..ClosingLength] == Closing;
  }

  /** One match of the global scan: where the comment starts and its id. */
  datatype CommentMatch = CommentMatch(pos: nat, id: string)

  /** The matches `exec` returns, one after the other, on the part `s` of
      the text that starts at `offset`: a match resumes the search after
      itself, a miss one character on. */
  function MatchesIn(s: string, offset: nat): seq<CommentMatch>
    decreases |s|
  {
    if s == [] then []
    else
      match IdCommentAt(s)
      case Some(x) =>
        IdCommentAtSound(s);
        [CommentMatch(offset, x)] + MatchesIn(s[|x| + CommentOverhead..], offset + |x| + CommentOverhead)
      case None => MatchesIn(s[1..], offset + 1)
  }

  function Matches(text: string): seq<CommentMatch> {
    MatchesIn(text, 0)
  }

  /** The ids of the matches, in their order. */
  function IdsOf(ms: seq<CommentMatch>): (ids: seq<string>)
    ensures |ids| == |ms|
  {
    if ms == [] then [] else [ms[0].id] + IdsOf(ms[1..])
  }

  /** The i-th id is the i-th match's. */
  lemma {:induction false} IdsOfIndex(ms: seq<CommentMatch>)
    ensures forall i | 0 <= i < |ms| :: IdsOf(ms)[i] == ms[i].id
  {
    if ms != [] {
      IdsOfIndex(ms[1..]);
    }
  }

  lemma MatchesInHit(s: string, offset: nat, x: string)
    requires IdCommentAt(s) == Some(x)
    ensures |x| + CommentOverhead <= |s|
    ensures MatchesIn(s, offset) == [CommentMatch(offset, x)] + MatchesIn(s[|x| + CommentOverhead..], offset + |x| + CommentOverhead)
  {
    IdCommentAtSound(s);
  }

  lemma MatchesInMiss(s: string, offset: nat)
    requires s != [] && IdCommentAt(s) == None
    ensures MatchesIn(s, offset) == MatchesIn(s[1..], offset + 1)
  {
  }

  lemma IdsOfCons(m: CommentMatch, ms: seq<CommentMatch>)
    ensures IdsOf([m] + ms) == [m.id] + IdsOf(ms)
  {
    assert ([m] + ms)[1..] == ms;
  }

  /** The ids of the scan when the pattern matches at its start. */
  lemma IdsOfHit(s: string, offset: nat, x: string)
    requires IdCommentAt(s) == Some(x)
    ensures |x| + CommentOverhead <= |s|
    ensures IdsOf(MatchesIn(s, offset))
      == [x] + IdsOf(MatchesIn(s[|x| + CommentOverhead..], offset + |x| + CommentOverhead))
  {
    var e := |x| + CommentOverhead;
    MatchesInHit(s, offset, x);
    IdsOfCons(CommentMatch(offset, x), MatchesIn(s[e..], offset + e));
  }

  /** The scan of `text` from `p` when the pattern matches there. */
  lemma ScanHit(text: string, p: nat, x: string)
    requires p < |text| && IdCommentAt(text[p..]) == Some(x)
    ensures p + |x| + CommentOverhead <= |text|
    ensures MatchesIn(text[p..], p) == [CommentMatch(p, x)] + MatchesIn(text[p + |x| + CommentOverhead..], p + |x| + CommentOverhead)
  {
    MatchesInHit(text[p..], p, x);
    assert text[p..][|x| + CommentOverhead..] == text[p + |x| + CommentOverhead..];
  }

  /** The scan of `text` from `p` when the pattern does not match there. */
  lemma ScanMiss(text: string, p: nat)
    requires p < |text| && IdCommentAt(text[p..]) == None
    ensures MatchesIn(text[p..], p) == MatchesIn(text[p + 1..], p + 1)
  {
    MatchesInMiss(text[p..], p);
    assert text[p..][1..] == text[p + 1..];
  }

  /** Where the scan starts changes the positions it reports, not the ids. */
  lemma {:induction false} IdsOfMatchesIn(s: string, o1: nat, o2: nat)
    ensures IdsOf(MatchesIn(s, o1)) == IdsOf(MatchesIn(s, o2))
    decreases |s|
  {
    if s != [] {
      match IdCommentAt(s)
      case Some(x) =>
        var e := |x| + CommentOverhead;
        IdsOfHit(s, o1, x);
        IdsOfHit(s, o2, x);
        IdsOfMatchesIn(s[e..], o1 + e, o2 + e);
      case None =>
        MatchesInMiss(s, o1);
        MatchesInMiss(s, o2);
        IdsOfMatchesIn(s[1..], o1 + 1, o2 + 1);
    }
  }

  /** Every match is the comment of a well-formed id at its position. */
  lemma {:induction false} MatchesInSound(text: string, p: nat)
    requires p <= |text|
    ensures var ms := MatchesIn(text[p..], p);
      forall i | 0 <= i < |ms| ::
        && p <= ms[i].pos
        && ms[i].pos + |IdComment(ms[i].id)| <= |text|
        && IsTableId(ms[i].id)
        && IdComment(ms[i].id) <= text[ms[i].pos..]
    decreases |text| - p
  {
    if p < |text| {
      match IdCommentAt(text[p..])
      case Some(x) =>
        IdCommentAtSound(text[p..]);
        ScanHit(text, p, x);
        MatchesInSound(text, p + |x| + CommentOverhead);
      case None =>
        ScanMiss(text, p);
        MatchesInSound(text, p + 1);
    }
  }

  /** The matches come in text order and none overlaps the next. */
  lemma {:induction false} MatchesInOrdered(text: string, p: nat)
    requires p <= |text|
    ensures var ms := MatchesIn(text[p..], p);
      forall i, j | 0 <= i < j < |ms| :: ms[i].pos + |IdComment(ms[i].id)| <= ms[j].pos
    decreases |text| - p
  {
    if p < |text| {
      match IdCommentAt(text[p..])
      case Some(x) =>
        var e := p + |x| + CommentOverhead;
        ScanHit(text, p, x);
        MatchesInSound(text, e);
        MatchesInOrdered(text, e);
      case None =>
        ScanMiss(text, p);
        MatchesInOrdered(text, p + 1);
    }
  }

  /** No character of a comment after its first is `<`, so no comment
      starts inside another. */
  lemma NoLtInside(y: string, k: nat)
    requires IsTableId(y) && 1 <= k < |y| + CommentOverhead
    ensures IdComment(y)[k] != '<'
  {
    var c := IdComment(y);
    if k < OpeningLength {
      assert c[k] == Opening[k];
    } else if k < OpeningLength + |y| {
      assert c[k] == y[k - OpeningLength];
    } else {
      assert c[k] == Closing[k - OpeningLength - |y|];
    }
  }

  /** A comment that starts after another one starts after its end. */
  lemma CommentsDoNotNest(text: string, p: nat, y: string, q: nat, x: string)
    requires p < q <= |text| && IsTableId(y) && IdComment(y) <= text[p..]
    requires IdComment(x) <= text[q..]
    ensures p + |y| + CommentOverhead <= q
  {
    if q < p + |y| + CommentOverhead {
      assert text[q] == IdComment(x)[0] == '<';
      assert text[q] == IdComment(y)[q - p];
      NoLtInside(y, q - p);
      assert false;
    }
  }

  /** The scan from `p` finds every comment of a well-formed id at or
      after `p`. */
  lemma {:induction false} MatchesInFinds(text: string, p: nat, q: nat, x: string)
    requires p <= q <= |text| && IsTableId(x) && IdComment(x) <= text[q..]
    ensures CommentMatch(q, x) in MatchesIn(text[p..], p)
    decreases q - p
  {
    assert |IdComment(x)| > 0;
    if p == q {
      IdCommentAtComplete(text[q..], x);
      ScanHit(text, q, x);
    } else {
      match IdCommentAt(text[p..])
      case Some(y) =>
        var e := p + |y| + CommentOverhead;
        IdCommentAtSound(text[p..]);
        ScanHit(text, p, y);
        CommentsDoNotNest(text, p, y, q, x);
        MatchesInFinds(text, e, q, x);
      case None =>
        ScanMiss(text, p);
        MatchesInFinds(text, p + 1, q, x);
    }
  }

  /** The global scan finds every comment of a well-formed id in the text,
      at its position. */
  lemma MatchesComplete(text: string, q: nat, x: string)
    requires q <= |text| && IsTableId(x) && IdComment(x) <= text[q..]
    ensures CommentMatch(q, x) in Matches(text)
  {
    assert text[0..] == text;
    MatchesInFinds(text, 0, q, x);
  }

  /** The id of every comment in the text is among the ids the scan
      collects. */
  lemma CommentIdCollected(text: string, q: nat, x: string)
    requires q <= |text| && IsTableId(x) && IdComment(x) <= text[q..]
    ensures x in IdsOf(Matches(text))
  {
    MatchesComplete(text, q, x);
    var ms := Matches(text);
    var i :| 0 <= i < |ms| && ms[i] == CommentMatch(q, x);
    IdsOfIndex(ms);
    assert IdsOf(ms)[i] == x;
  }

  /** Every id the scan reports is one `[\w-]+` can capture. */
  lemma MatchesIdsWellFormed(text: string)
    ensures forall i | 0 <= i < |Matches(text)| :: IsTableId(IdsOf(Matches(text))[i])
  {
    assert text[0..] == text;
    MatchesInSound(text, 0);
    var ms := Matches(text);
    assert MatchesIn(text[0..], 0) == ms;
    IdsOfIndex(ms);
    forall i | 0 <= i < |ms|
      ensures IsTableId(IdsOf(ms)[i])
    {
      assert IsTableId(ms[i].id);
    }
  }

  /** A text that starts with the comment for `x` yields `x` first, then the
      ids of the rest: writing the comment and scanning it gives the id back. */
  lemma IdsOfCommentThenRest(x: string, rest: string)
    requires IsTableId(x)
    ensures IdsOf(Matches(IdComment(x) + rest)) == [x] + IdsOf(Matches(rest))
  {
    var text := IdComment(x) + rest;
    IdCommentAtComplete(text, x);
    MatchesInHit(text, 0, x);
    assert text[|x| + CommentOverhead..] == rest;
    IdsOfMatchesIn(rest, |x| + CommentOverhead, 0);
  }

  /** Where the search resumes after a match: `lastIndex` once `exec` has
      returned it. */
  function EndOf(m: CommentMatch): nat {
    m.pos + |m.id| + CommentOverhead
  }

  /** `commentRegex.exec(text)` with the regex's `lastIndex` at `lastIndex`:
      the first match at or after it, and `None` when there is none. The
      scan from `lastIndex` is that match followed by the scan from its end. */
  method Exec(text: string, lastIndex: nat) returns (r: Option<CommentMatch>)
    requires lastIndex <= |text|
    ensures r.None? ==> MatchesIn(text[lastIndex..], lastIndex) == []
    ensures r.Some? ==>
      && lastIndex <= r.value.pos
      && EndOf(r.value) <= |text|
      && MatchesIn(text[lastIndex..], lastIndex) == [r.value] + MatchesIn(text[EndOf(r.value)..], EndOf(r.value))
  {
    var p := lastIndex;
    while p < |text|
      invariant lastIndex <= p <= |text|
      invariant MatchesIn(text[lastIndex..], lastIndex) == MatchesIn(text[p..], p)
      decreases |text| - p
    {
      match IdCommentAt(text[p..])
      case Some(x) =>
        ScanHit(text, p, x);
        return Some(CommentMatch(p, x));
      case None =>
        ScanMiss(text, p);
        p := p + 1;
    }
    assert text[p..] == [];
    return None;
  }

  /** The id-collecting loop of `exportTableDataToFile`: every id, in the
      order the comments appear. */
  method CollectTableIds(text: string) returns (ids: seq<string>)
    ensures ids == IdsOf(Matches(text))
  {
    ids := [];
    var lastIndex := 0;
    assert text[0..] == text;
    while true
      invariant lastIndex <= |text|
      invariant ids + IdsOf(MatchesIn(text[lastIndex..], lastIndex)) == IdsOf(Matches(text))
      decreases |text| - lastIndex
    {
      var r := Exec(text, lastIndex);
      match r
      case None =>
        return;
      case Some(m) =>
        IdsOfCons(m, MatchesIn(text[EndOf(m)..], EndOf(m)));
        ids := ids + [m.id];
        lastIndex := EndOf(m);
    }
  }

  /** The text a window of `findTableId` sees: at most 50 characters before
      the comment, and at most 50 after it. */
  const Proximity := 50

  /** `fileContent.substring(Math.max(0, pos - 50), pos)`: the text right
      before `pos`, 50 characters of it when there are that many. */
  function TextBefore(text: string, pos: nat): string
    requires pos <= |text|
  {
    text[if pos < Proximity then 0 else pos - Proximity..pos]
  }

  /** `fileContent.substring(end, Math.min(fileContent.length, end + 50))`:
      the text right after `end`, 50 characters of it when there are that many. */
  function TextAfter(text: string, end: nat): string
    requires end <= |text|
  {
    text[end..if end + Proximity <= |text| then end + Proximity else |text|]
  }

  /** Whether a match sits next to a `<table>` before it or a `</table>`
      after it. Positions past the end of the text are read as its end. */
  predicate NearTableTag(text: string, m: CommentMatch) {
    var start := if m.pos <= |text| then m.pos else |text|;
    var end := if m.pos + |m.id| + CommentOverhead <= |text| then m.pos + |m.id| + CommentOverhead else |text|;
    Contains(TextBefore(text, start), "<table>") || Contains(TextAfter(text, end), "</table>")
  }

  /** The match right after those `passed` is the first to agree with
      `isWrapped` when none of them does. */
  lemma FirstAgreeing(text: string, ms: seq<CommentMatch>, passed: seq<CommentMatch>, m: CommentMatch, isWrapped: bool)
    requires |passed| < |ms| && passed == ms[..|passed|] && ms[|passed|] == m
    requires forall j | 0 <= j < |passed| :: NearTableTag(text, passed[j]) != isWrapped
    requires NearTableTag(text, m) == isWrapped
    ensures exists i | 0 <= i < |ms| ::
      && ms[i].id == m.id
      && NearTableTag(text, ms[i]) == isWrapped
      && forall j | 0 <= j < i :: NearTableTag(text, ms[j]) != isWrapped
  {
    var i := |passed|;
    assert forall j | 0 <= j < i :: ms[j] == passed[j];
  }

  /** `findTableId` with the DOM test for a wrapped table given as
      `isWrapped`: the id of the first comment whose neighbourhood agrees
      with it (near a table tag for a wrapped table, away from one for a
      plain table), and `None` when there is no such comment. */
  method FindTableId(text: string, isWrapped: bool) returns (r: Option<string>)
    ensures var ms := Matches(text);
      r.Some? ==> exists i | 0 <= i < |ms| ::
        && ms[i].id == r.value
        && NearTableTag(text, ms[i]) == isWrapped
        && forall j | 0 <= j < i :: NearTableTag(text, ms[j]) != isWrapped
    ensures var ms := Matches(text);
      r.None? ==> forall i | 0 <= i < |ms| :: NearTableTag(text, ms[i]) != isWrapped
  {
    ghost var ms := Matches(text);
    ghost var passed: seq<CommentMatch> := [];
    var lastIndex := 0;
    assert text[0..] == text;
    while true
      invariant lastIndex <= |text|
      invariant ms == passed + MatchesIn(text[lastIndex..], lastIndex)
      invariant forall j | 0 <= j < |passed| :: NearTableTag(text, passed[j]) != isWrapped
      decreases |text| - lastIndex
    {
      var r := Exec(text, lastIndex);
      match r
      case None =>
        return None;
      case Some(m) =>
        ghost var rest := MatchesIn(text[EndOf(m)..], EndOf(m));
        assert ms == (passed + [m]) + rest;
        assert ms[|passed|] == m && ms[..|passed|] == passed;
        var near := NearTableTag(text, m);
        if isWrapped && near {
          FirstAgreeing(text, ms, passed, m, isWrapped);
          return Some(m.id);
        }
        if !isWrapped && !near {
          FirstAgreeing(text, ms, passed, m, isWrapped);
          return Some(m.id);
        }
        passed := passed + [m];
        lastIndex := EndOf(m);
    }
  }
}
