/** The glob matcher MetaMatch of gnu-efi/lib/str.c and what its patterns mean. */
module Glob {
  import opened Common
  import opened Text

  const STAR: CHAR16 := Ch('*')
  const QUESTION: CHAR16 := Ch('?')
  const OPEN: CHAR16 := Ch('[')
  const CLOSE: CHAR16 := Ch(']')
  const DASH: CHAR16 := Ch('-')

  // ---------- what a pattern means ----------

  datatype Token = Literal(c: CHAR16) | AnyOne | AnyRun | OneOf(body: seq<CHAR16>)

  /** The position of the first ']' at or after `i`, or the length. */
  function Closing(p: CString, i: nat): (e: nat)
    requires i <= |p|
    ensures i <= e <= |p| && (e < |p| ==> p[e] == CLOSE)
    ensures forall k :: i <= k < e ==> p[k] != CLOSE
    decreases |p| - i
  {
    if i == |p| || p[i] == CLOSE then i else Closing(p, i + 1)
  }

  /** The tokens of the pattern from position `i` on, if every '[' there is closed by a ']'. */
  function Tokens(p: CString, i: nat): Option<seq<Token>>
    requires i <= |p|
    decreases |p| - i
  {
    if i == |p| then Some([])
    else if p[i] == OPEN then
      var e := Closing(p, i + 1);
      if e == |p| then None else Cons(OneOf(p[i + 1..e]), Tokens(p, e + 1))
    else
      Cons(if p[i] == STAR then AnyRun else if p[i] == QUESTION then AnyOne else Literal(p[i]), Tokens(p, i + 1))
  }

  function Cons(t: Token, ts: Option<seq<Token>>): Option<seq<Token>> {
    if ts.None? then None else Some([t] + ts.value)
  }

  /** What a dash ranges up from: the character before it, or everything if it comes first. */
  function Low(body: seq<CHAR16>, k: nat): CHAR16
    requires k < |body|
  {
    if k == 0 then NUL else body[k - 1]
  }

  /** One position of a set admits `c`: a character admits itself, and a dash with a character after
      it admits the range and that character. */
  predicate Admits(body: seq<CHAR16>, k: nat, c: CHAR16)
    requires k < |body|
  {
    if body[k] != DASH then c == body[k]
    else k + 1 < |body| && (Low(body, k) <= c <= body[k + 1] || c == body[k + 1])
  }

  predicate InSet(body: seq<CHAR16>, c: CHAR16) {
    exists k :: 0 <= k < |body| && Admits(body, k, c)
  }

  /** Every '-' stands between two other characters. */
  predicate DashesInside(body: seq<CHAR16>) {
    forall k :: 0 <= k < |body| && body[k] == Ch('-') ==>
      0 < k < |body| - 1 && body[k - 1] != Ch('-') && body[k + 1] != Ch('-')
  }

  predicate Range(body: seq<CHAR16>, k: nat, c: CHAR16)
    requires k < |body|
  {
    body[k] == Ch('-') && 0 < k < |body| - 1 && body[k - 1] <= c <= body[k + 1]
  }

  /** For such sets membership is what one expects: listed, or inside a range. */
  lemma PlainSets(body: seq<CHAR16>, c: CHAR16)
    requires DashesInside(body)
    ensures InSet(body, c) <==>
            (c != Ch('-') && c in body) || exists k :: 0 <= k < |body| && Range(body, k, c)
  {
    forall k | 0 <= k < |body| && Range(body, k, c) ensures Admits(body, k, c) {
    }
    forall k | 0 <= k < |body| && Admits(body, k, c) && body[k] == DASH && !Range(body, k, c)
      ensures c != DASH && c in body
    {
      assert body[k + 1] == c;
    }
    if c != DASH && c in body {
      var k :| 0 <= k < |body| && body[k] == c;
      assert Admits(body, k, c);
    }
    if InSet(body, c) {
      var k :| 0 <= k < |body| && Admits(body, k, c);
      if body[k] == DASH {
        assert Range(body, k, c) || c == body[k + 1];
      }
    }
  }

  /** The piece of the string that one token covers. */
  predicate Covers(t: Token, piece: seq<CHAR16>) {
    match t
    case Literal(c) => piece == [c]
    case AnyOne => |piece| == 1
    case AnyRun => true
    case OneOf(body) => |piece| == 1 && InSet(body, piece[0])
  }

  function Joined(pieces: seq<seq<CHAR16>>): seq<CHAR16> {
    if pieces == [] then [] else pieces[0] + Joined(pieces[1..])
  }

  /** A way to cut the string into consecutive pieces, one for each token. */
  ghost predicate Cut(ts: seq<Token>, s: seq<CHAR16>, pieces: seq<seq<CHAR16>>) {
    && |pieces| == |ts| && Joined(pieces) == s
    && forall i :: 0 <= i < |ts| ==> Covers(ts[i], pieces[i])
  }

  /** The declarative meaning of a match. */
  ghost predicate Matches(ts: seq<Token>, s: seq<CHAR16>) {
    exists pieces :: Cut(ts, s, pieces)
  }

  // ---------- what the tokens are ----------

  /** How a token is written. */
  function Spelled(t: Token): seq<CHAR16> {
    match t
    case Literal(c) => [c]
    case AnyOne => [Ch('?')]
    case AnyRun => [Ch('*')]
    case OneOf(body) => [Ch('[')] + body + [Ch(']')]
  }

  /** A character with a meaning of its own is no literal, and a set ends with its first bracket. */
  predicate Proper(t: Token) {
    match t
    case Literal(c) => c != Ch('?') && c != Ch('*') && c != Ch('[')
    case OneOf(body) => Ch(']') !in body
    case _ => true
  }

  function Written(ts: seq<Token>): seq<CHAR16> {
    if ts == [] then [] else Spelled(ts[0]) + Written(ts[1..])
  }

  lemma WrittenCons(t: Token, ts: seq<Token>)
    ensures Written([t] + ts) == Spelled(t) + Written(ts)
  {
    assert ([t] + ts)[1..] == ts;
  }

  lemma FirstToken(p: CString, i: nat) returns (t: Token, next: nat)
    requires i < |p| && Tokens(p, i).Some?
    ensures i < next <= |p| && Tokens(p, next).Some? && Tokens(p, i).value == [t] + Tokens(p, next).value
    ensures Proper(t) && Spelled(t) == p[i..next]
  {
    hide Closing;
    if p[i] == OPEN {
      var e := Closing(p, i + 1);
      t, next := OneOf(p[i + 1..e]), e + 1;
      Bracketed(p, i, e);
    } else {
      t, next := if p[i] == STAR then AnyRun else if p[i] == QUESTION then AnyOne else Literal(p[i]), i + 1;
      assert p[i..next] == [p[i]];
    }
  }

  lemma Bracketed(p: seq<CHAR16>, i: nat, e: nat)
    requires i < e < |p|
    ensures p[i..e + 1] == [p[i]] + p[i + 1..e] + [p[e]]
  {
  }

  lemma {:induction false} TokensSpell(p: CString, i: nat)
    requires i <= |p| && Tokens(p, i).Some?
    ensures Written(Tokens(p, i).value) == p[i..] && forall t :: t in Tokens(p, i).value ==> Proper(t)
    decreases |p| - i
  {
    if i < |p| {
      var t, next := FirstToken(p, i);
      TokensSpell(p, next);
      hide Tokens, Written, Spelled, Proper, Closing;
      WrittenCons(t, Tokens(p, next).value);
      Slices(p, i, next);
    } else {
      assert Tokens(p, i) == Some([]);
    }
  }

  lemma Slices(p: seq<CHAR16>, i: nat, next: nat)
    requires i <= next <= |p|
    ensures p[i..] == p[i..next] + p[next..]
  {
  }

  lemma ReadToken(p: CString, i: nat, t: Token, next: nat)
    requires i <= next <= |p| && Proper(t) && p[i..next] == Spelled(t)
    ensures Tokens(p, i) == Cons(t, Tokens(p, next))
  {
    hide Closing;
    assert p[i..next][0] == p[i];
    match t {
      case OneOf(body) =>
        SetEnds(p, i, body, next);
      case _ =>
        assert |p[i..next]| == 1;
    }
  }

  lemma SetEnds(p: CString, i: nat, body: seq<CHAR16>, next: nat)
    requires i <= next <= |p| && CLOSE !in body && p[i..next] == [OPEN] + body + [CLOSE]
    ensures i < |p| && p[i] == OPEN && next > i + 1 && Closing(p, i + 1) == next - 1 && p[i + 1..next - 1] == body
  {
    var s := [OPEN] + body + [CLOSE];
    assert forall k :: 0 <= k < |s| ==> p[i + k] == p[i..next][k] == s[k];
    assert s[|s| - 1] == CLOSE && s[0] == OPEN;
    forall k | i + 1 <= k < next - 1 ensures p[k] == body[k - i - 1] {
      assert p[i + (k - i)] == s[k - i];
    }
    assert p[i + (|s| - 1)] == CLOSE;
    ClosingAt(p, i + 1, next - 1);
  }

  lemma Front(s: seq<CHAR16>, i: nat, a: seq<CHAR16>, b: seq<CHAR16>)
    requires i <= |s| && s[i..] == a + b
    ensures i + |a| <= |s| && s[i..i + |a|] == a && s[i + |a|..] == b
  {
    assert s[i..][..|a|] == a && s[i..][|a|..] == b;
  }

  lemma NothingWritten(p: CString, i: nat)
    requires i <= |p| && p[i..] == Written([])
    ensures Tokens(p, i) == Some([])
  {
    assert |p[i..]| == |p| - i;
  }

  lemma {:induction false} SpelledTokens(p: CString, i: nat, ts: seq<Token>)
    requires i <= |p| && p[i..] == Written(ts) && forall t :: t in ts ==> Proper(t)
    ensures Tokens(p, i) == Some(ts)
    decreases |ts|
  {
    hide Tokens, Written, Spelled, Proper, Closing;
    if ts == [] {
      NothingWritten(p, i);
    } else {
      var t, rest := ts[0], ts[1..];
      var next := i + |Spelled(t)|;
      assert ts == [t] + rest;
      WrittenCons(t, rest);
      Front(p, i, Spelled(t), Written(rest));
      ReadToken(p, i, t, next);
      SpelledTokens(p, next, rest);
    }
  }

  lemma {:induction false} ClosingAt(p: CString, i: nat, e: nat)
    requires i <= e < |p| && p[e] == CLOSE && forall k :: i <= k < e ==> p[k] != CLOSE
    ensures Closing(p, i) == e
    decreases e - i
  {
    if i < e {
      ClosingAt(p, i + 1, e);
    }
  }

  /** The tokens of a pattern are the one way in which it is written. */
  lemma TokensIff(p: CString, ts: seq<Token>)
    ensures Tokens(p, 0) == Some(ts) <==> Written(ts) == p && forall t :: t in ts ==> Proper(t)
  {
    assert p[0..] == p;
    hide Written, Proper;
    if Tokens(p, 0).Some? {
      TokensSpell(p, 0);
    }
    if Written(ts) == p && forall t :: t in ts ==> Proper(t) {
      SpelledTokens(p, 0, ts);
    }
  }

  /** What a single token matches. */
  lemma OneToken(t: Token, s: seq<CHAR16>)
    ensures Matches([t], s) <==>
            match t
            case Literal(c) => s == [c]
            case AnyOne => |s| == 1
            case AnyRun => true
            case OneOf(body) => exists c :: s == [c] && InSet(body, c)
  {
    if Matches([t], s) {
      var pieces :| Cut([t], s, pieces);
      assert pieces == [pieces[0]] && Joined(pieces) == pieces[0] + Joined([]);
      assert s == pieces[0] && (t.OneOf? ==> s == [s[0]]);
    }
    if Covers(t, s) {
      assert Joined([s]) == s + Joined([]) == s;
      assert Cut([t], s, [s]);
    }
  }

  lemma {:induction false} JoinedConcat(a: seq<seq<CHAR16>>, b: seq<seq<CHAR16>>)
    ensures Joined(a + b) == Joined(a) + Joined(b)
  {
    if a == [] {
      assert a + b == b;
    } else {
      assert (a + b)[1..] == a[1..] + b;
      JoinedConcat(a[1..], b);
    }
  }

  /** One pattern after another matches one string after another. */
  lemma MatchesConcat(ts: seq<Token>, us: seq<Token>, s: seq<CHAR16>)
    ensures Matches(ts + us, s) <==> exists k :: 0 <= k <= |s| && Matches(ts, s[..k]) && Matches(us, s[k..])
  {
    if Matches(ts + us, s) {
      var pieces :| Cut(ts + us, s, pieces);
      var a, b := pieces[..|ts|], pieces[|ts|..];
      assert a + b == pieces;
      JoinedConcat(a, b);
      var k := |Joined(a)|;
      assert s[..k] == Joined(a) && s[k..] == Joined(b);
      assert Cut(ts, s[..k], a);
      assert Cut(us, s[k..], b) by {
        forall i | 0 <= i < |us| ensures Covers(us[i], b[i]) {
          assert Covers((ts + us)[|ts| + i], pieces[|ts| + i]);
        }
      }
    }
    if k :| 0 <= k <= |s| && Matches(ts, s[..k]) && Matches(us, s[k..]) {
      var a :| Cut(ts, s[..k], a);
      var b :| Cut(us, s[k..], b);
      JoinedConcat(a, b);
      assert s[..k] + s[k..] == s;
      assert Cut(ts + us, s, a + b);
    }
  }

  // ---------- the same by backtracking ----------

  /** Matching by trying shorter pieces for '*' first. */
  predicate Backtrack(ts: seq<Token>, s: seq<CHAR16>)
    decreases |ts|, |s|
  {
    if ts == [] then s == []
    else if ts[0] == AnyRun then Backtrack(ts[1..], s) || (s != [] && Backtrack(ts, s[1..]))
    else s != [] && Covers(ts[0], s[..1]) && Backtrack(ts[1..], s[1..])
  }

  lemma {:induction false} BacktrackSound(ts: seq<Token>, s: seq<CHAR16>) returns (pieces: seq<seq<CHAR16>>)
    requires Backtrack(ts, s)
    ensures Cut(ts, s, pieces)
    decreases |ts|, |s|
  {
    if ts == [] {
      pieces := [];
    } else if ts[0] == AnyRun && !Backtrack(ts[1..], s) {
      var rest := BacktrackSound(ts, s[1..]);
      pieces := [[s[0]] + rest[0]] + rest[1..];
      assert Joined(pieces) == [s[0]] + rest[0] + Joined(rest[1..]) == s;
    } else {
      var n := if ts[0] == AnyRun then 0 else 1;
      var rest := BacktrackSound(ts[1..], s[n..]);
      pieces := [s[..n]] + rest;
      assert pieces[1..] == rest && s[..n] + s[n..] == s;
      forall i | 0 <= i < |ts| ensures Covers(ts[i], pieces[i]) {
        if i > 0 { assert Covers(ts[1..][i - 1], rest[i - 1]); }
      }
    }
  }

  lemma {:induction false} BacktrackComplete(ts: seq<Token>, s: seq<CHAR16>, pieces: seq<seq<CHAR16>>)
    requires Cut(ts, s, pieces)
    ensures Backtrack(ts, s)
    decreases |ts|, |s|
  {
    if ts != [] {
      assert Covers(ts[0], pieces[0]);
      if ts[0] == AnyRun && pieces[0] != [] {
        var shorter := [pieces[0][1..]] + pieces[1..];
        assert Joined(shorter) == pieces[0][1..] + Joined(pieces[1..]) == s[1..];
        BacktrackComplete(ts, s[1..], shorter);
      } else {
        var n := |pieces[0]|;
        assert s[..n] == pieces[0] && s[n..] == Joined(pieces[1..]);
        BacktrackComplete(ts[1..], s[n..], pieces[1..]);
      }
    }
  }

  /** Backtracking finds a cut exactly when there is one. */
  lemma BacktrackIsMatch(ts: seq<Token>, s: seq<CHAR16>)
    ensures Backtrack(ts, s) <==> Matches(ts, s)
  {
    if Backtrack(ts, s) {
      var pieces := BacktrackSound(ts, s);
    }
    if Matches(ts, s) {
      var pieces :| Cut(ts, s, pieces);
      BacktrackComplete(ts, s, pieces);
    }
  }

  // ---------- the code ----------

  /** The scan of a set whose body is Pattern[start..end]: find a position that admits `c`, then move
      behind the ']'. */
  method ScanSet(pattern: CString, start: nat, c: CHAR16) returns (matched: bool, next: nat)
    requires start <= |pattern| && Closing(pattern, start) < |pattern| && c != NUL
    ensures matched <==> InSet(pattern[start..Closing(pattern, start)], c)
    ensures matched ==> next == Closing(pattern, start) + 1
  {
    ghost var end := Closing(pattern, start);
    ghost var body := pattern[start..end];
    var i := start;
    var l := NUL;
    var p := At(pattern, i);
    i := i + 1;
    while p != NUL
      invariant start < i <= end + 1 && p == pattern[i - 1]
      invariant p == DASH ==> l == Low(body, i - 1 - start)
      invariant forall k :: 0 <= k < i - 1 - start ==> !Admits(body, k, c)
      decreases |pattern| - i
    {
      if p == CLOSE {
        return false, i;
      }
      ghost var k := i - 1 - start;
      assert p == body[k];
      if p == DASH {
        p := At(pattern, i);
        if p == NUL || p == CLOSE {
          assert !Admits(body, k, c);
          return false, i;
        }
        assert p == body[k + 1];
        if c >= l && c <= p {
          assert Admits(body, k, c);
          break;
        }
      }
      l := p;
      if c == p {
        assert Admits(body, k, c);
        break;
      }
      p := At(pattern, i);
      i := i + 1;
    }
    while p != NUL && p != CLOSE
      invariant start < i <= end + 1
      invariant if p == CLOSE then i == end + 1 else i <= end
      invariant p != NUL
      decreases |pattern| - i, if p == CLOSE then 0 else 1
    {
      p := At(pattern, i);
      i := i + 1;
    }
    return true, i;
  }

  /** MetaMatch on the suffixes of the two strings from the cursors on. The requirement is that the
      pattern can be read to its end: every '[' is closed. */
  method MetaMatch(text: CString, pattern: CString, strFrom: nat, patFrom: nat) returns (match_: bool)
    requires strFrom <= |text| && patFrom <= |pattern| && Tokens(pattern, patFrom).Some?
    ensures match_ <==> Backtrack(Tokens(pattern, patFrom).value, text[strFrom..])
    ensures match_ <==> Matches(Tokens(pattern, patFrom).value, text[strFrom..])
    decreases |pattern| - patFrom, 0
  {
    hide Matches, InSet, Closing;
    BacktrackIsMatch(Tokens(pattern, patFrom).value, text[strFrom..]);
    var strAt, patAt := strFrom, patFrom;
    while true
      invariant strAt <= |text| && patFrom <= patAt <= |pattern| && Tokens(pattern, patAt).Some?
      invariant Backtrack(Tokens(pattern, patFrom).value, text[strFrom..])
                <==> Backtrack(Tokens(pattern, patAt).value, text[strAt..])
      decreases |pattern| - patAt
    {
      ghost var ts, rest := Tokens(pattern, patAt).value, text[strAt..];
      assert rest != [] ==> rest[..1] == [text[strAt]] && rest[1..] == text[strAt + 1..];
      var p := At(pattern, patAt);
      if p == NUL {
        return strAt == |text|;
      }
      patAt := patAt + 1;
      if p == STAR {
        match_ := MatchStar(text, pattern, strAt, patAt);
        return;
      }
      var c := At(text, strAt);
      if p == QUESTION {
        if c == NUL {
          return false;
        }
      } else if p == OPEN {
        if c == NUL {
          return false;
        }
        var matched;
        matched, patAt := ScanSet(pattern, patAt, c);
        if !matched {
          return false;
        }
      } else if c != p {
        return false;
      }
      strAt := strAt + 1;
    }
  }

  /** The loop for a '*': the rest of the pattern is tried at every position from `strFrom` on. */
  method MatchStar(text: CString, pattern: CString, strFrom: nat, patAt: nat) returns (match_: bool)
    requires strFrom <= |text| && patAt <= |pattern| && Tokens(pattern, patAt).Some?
    ensures match_ <==> Backtrack([AnyRun] + Tokens(pattern, patAt).value, text[strFrom..])
    decreases |pattern| - patAt, 1
  {
    hide Matches, Tokens;
    ghost var later := Tokens(pattern, patAt).value;
    ghost var ts := [AnyRun] + later;
    assert ts[0] == AnyRun && ts[1..] == later;
    var strAt := strFrom;
    while At(text, strAt) != NUL
      invariant strFrom <= strAt <= |text|
      invariant Backtrack(ts, text[strFrom..]) <==> Backtrack(ts, text[strAt..])
      decreases |text| - strAt
    {
      var found := MetaMatch(text, pattern, strAt, patAt);
      if found {
        return true;
      }
      assert text[strAt..][1..] == text[strAt + 1..];
      strAt := strAt + 1;
    }
    match_ := MetaMatch(text, pattern, strAt, patAt);
  }
}
