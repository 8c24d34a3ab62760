/**
 The tokenizer strtok.  It cuts a string in place and keeps its position between calls, so what it
 promises is about a whole run of calls.  The delimiter string is in separate memory.
 */
module Strtok {
  import opened Memory
  import opened Scan

  // ---- the tokens of a string ----

  datatype Token = Token(start: nat, end: nat)

  /** A maximal non-empty segment without delimiters of the string at [p, nul). */
  ghost predicate IsToken<T>(b: seq<T>, p: nat, nul: nat, delims: set<T>, t: Token)
    requires p <= nul <= |b|
  {
    && p <= t.start < t.end <= nul
    && (forall k :: t.start <= k < t.end ==> b[k] !in delims)
    && (t.start == p || b[t.start - 1] in delims)
    && (t.end == nul || b[t.end] in delims)
  }

  /** One token is next: delimiters only up to its start, none inside it, one (or the terminator) at its end. */
  ghost predicate IsNext<T>(b: seq<T>, p: nat, nul: nat, delims: set<T>, t: Token)
    requires p <= nul <= |b|
  {
    && p <= t.start < t.end <= nul
    && (forall k :: p <= k < t.start ==> b[k] in delims)
    && (forall k :: t.start <= k < t.end ==> b[k] !in delims)
    && (t.end == nul || b[t.end] in delims)
  }

  ghost predicate NoToken<T>(b: seq<T>, p: nat, nul: nat, delims: set<T>)
    requires p <= nul <= |b|
  {
    forall k :: p <= k < nul ==> b[k] in delims
  }

  /** ts is what a run of calls from p on returns. */
  ghost predicate Run<T>(b: seq<T>, p: nat, nul: nat, delims: set<T>, ts: seq<Token>)
    requires p <= nul <= |b|
    decreases |ts|
  {
    if ts == [] then NoToken(b, p, nul, delims)
    else
      && IsNext(b, p, nul, delims, ts[0])
      && if ts[0].end == nul then |ts| == 1 else Run(b, ts[0].end + 1, nul, delims, ts[1..])
  }

  ghost predicate Ascending(ts: seq<Token>) {
    forall i, j :: 0 <= i < j < |ts| ==> ts[i].end < ts[j].start
  }

  /** Only the next token starts before its end. */
  lemma OverlappingTokens<T>(b: seq<T>, p: nat, nul: nat, delims: set<T>, first: Token, t: Token)
    requires p <= nul <= |b| && IsNext(b, p, nul, delims, first) && IsToken(b, p, nul, delims, t)
    requires t.start <= first.end
    ensures t == first
  {
    assert b[t.start] !in delims;
    assert b[first.start] !in delims;
  }

  /** The tokens are the next one and those past the delimiter that ends it. */
  lemma NextAndLater<T>(b: seq<T>, p: nat, nul: nat, delims: set<T>, first: Token, t: Token)
    requires p <= nul <= |b| && IsNext(b, p, nul, delims, first)
    ensures IsToken(b, p, nul, delims, t)
            <==> t == first || (first.end < nul && IsToken(b, first.end + 1, nul, delims, t))
  {
    if IsToken(b, p, nul, delims, t) && t.start <= first.end {
      OverlappingTokens(b, p, nul, delims, first, t);
    }
  }

  /** A run returns every token, nothing but tokens, each once and in order. */
  lemma {:induction false} RunIsAllTokens<T>(b: seq<T>, p: nat, nul: nat, delims: set<T>, ts: seq<Token>)
    requires p <= nul <= |b| && Run(b, p, nul, delims, ts)
    ensures forall t :: t in ts <==> IsToken(b, p, nul, delims, t)
    ensures Ascending(ts)
    decreases |ts|
  {
    if ts == [] {
      assert forall t :: IsToken(b, p, nul, delims, t) ==> b[t.start] !in delims;
    } else {
      var first, rest := ts[0], ts[1..];
      if first.end < nul {
        RunIsAllTokens(b, first.end + 1, nul, delims, rest);
      }
      forall t
        ensures t in ts <==> IsToken(b, p, nul, delims, t)
      {
        assert ts == [first] + rest;
        NextAndLater(b, p, nul, delims, first, t);
      }
      RestIsLater(ts, first.end);
    }
  }

  lemma RestIsLater(ts: seq<Token>, end: nat)
    requires ts != [] && ts[0].end == end && Ascending(ts[1..])
    requires forall t :: t in ts[1..] ==> end < t.start
    ensures Ascending(ts)
  {
  }

  /** Having returned ts, the calls stand at q: whatever they return from there on completes ts. */
  ghost predicate Reached<T>(b: seq<T>, p: nat, q: nat, nul: nat, delims: set<T>, ts: seq<Token>)
    requires p <= nul <= |b| && q <= nul
  {
    forall us :: Run(b, q, nul, delims, us) ==> Run(b, p, nul, delims, ts + us)
  }

  lemma ReachedStart<T>(b: seq<T>, p: nat, nul: nat, delims: set<T>)
    requires p <= nul <= |b|
    ensures Reached(b, p, p, nul, delims, [])
  {
    assert forall us: seq<Token> :: [] + us == us;
  }

  lemma ReachedNext<T>(b: seq<T>, p: nat, q: nat, nul: nat, delims: set<T>, ts: seq<Token>, t: Token)
    requires p <= nul <= |b| && q <= nul && Reached(b, p, q, nul, delims, ts)
    requires IsNext(b, q, nul, delims, t)
    ensures t.end < nul ==> Reached(b, p, t.end + 1, nul, delims, ts + [t])
    ensures t.end == nul ==> Run(b, p, nul, delims, ts + [t])
  {
    if t.end == nul {
      assert Run(b, q, nul, delims, [t]);
    } else {
      forall us | Run(b, t.end + 1, nul, delims, us)
        ensures Run(b, p, nul, delims, ts + [t] + us)
      {
        assert ([t] + us)[1..] == us;
        assert Run(b, q, nul, delims, [t] + us);
        assert ts + [t] + us == ts + ([t] + us);
      }
    }
  }

  lemma ReachedEnd<T>(b: seq<T>, p: nat, q: nat, nul: nat, delims: set<T>, ts: seq<Token>)
    requires p <= nul <= |b| && q <= nul && Reached(b, p, q, nul, delims, ts) && NoToken(b, q, nul, delims)
    ensures Run(b, p, nul, delims, ts)
  {
    assert Run(b, q, nul, delims, []);
    assert ts + [] == ts;
  }

  // ---- the calls ----

  /** The delimiters: the bytes of delim before its terminator. */
  ghost function DelimSet(delim: seq<byte>, delimEnd: nat): set<byte>
    requires delimEnd <= |delim|
  {
    BytesBetween(delim, 0, delimEnd)
  }

  lemma NoNulInSet(delim: seq<byte>, delimEnd: nat)
    requires FirstAt(delim, 0, delimEnd, 0)
    ensures 0 !in DelimSet(delim, delimEnd)
  {
  }

  /** The span loop of the first scan; it stops at the terminator of delim. */
  method IsDelimiter(delim: seq<byte>, c: byte, ghost delimEnd: nat) returns (r: bool)
    requires FirstAt(delim, 0, delimEnd, 0)
    ensures r <==> c in DelimSet(delim, delimEnd)
  {
    var spanp := 0;
    var sc := delim[spanp];
    spanp := spanp + 1;
    while sc != 0
      invariant 0 < spanp <= delimEnd + 1 && sc == delim[spanp - 1]
      invariant forall k :: 0 <= k < spanp - 1 ==> delim[k] != c
      decreases delimEnd + 1 - spanp
    {
      if c == sc {
        return true;
      }
      sc := delim[spanp];
      spanp := spanp + 1;
    }
    return false;
  }

  /** The span loop of the second scan; the terminator of delim counts as a delimiter there. */
  method EndsToken(delim: seq<byte>, c: byte, ghost delimEnd: nat) returns (r: bool)
    requires FirstAt(delim, 0, delimEnd, 0)
    ensures r <==> c == 0 || c in DelimSet(delim, delimEnd)
  {
    var spanp := 0;
    while true
      invariant 0 <= spanp <= delimEnd
      invariant forall k :: 0 <= k < spanp ==> delim[k] != c
      decreases delimEnd - spanp
    {
      var sc := delim[spanp];
      spanp := spanp + 1;
      if sc == c {
        return true;
      }
      if sc == 0 {
        return false;
      }
    }
  }

  /** The saved position: the object behind the parameter last of __strtok_r, the static variable of strtok. */
  class Saved {
    var last: Option<nat>

    constructor ()
      ensures last == None
    {
      last := None;
    }

    /**
     One call.  start is where it begins to look and nul the terminator of what is left of the string;
     t is the token found.
     */
    method StrtokR(buf: array<byte>, s: Option<nat>, delim: seq<byte>, ghost nul: nat, ghost delimEnd: nat)
      returns (tok: Option<nat>, ghost t: Token)
      requires FirstAt(delim, 0, delimEnd, 0)
      requires var start := if s.Some? then s else last;
               start.Some? ==> FirstAt(buf[..], start.value, nul, 0)
      modifies this, buf
      ensures var start := if s.Some? then s else old(last);
              match start {
                case None => tok == None && last == None && buf[..] == old(buf[..])
                case Some(p) =>
                  var delims := DelimSet(delim, delimEnd);
                  if NoToken(old(buf[..]), p, nul, delims) then
                    tok == None && last == None && buf[..] == old(buf[..])
                  else
                    && IsNext(old(buf[..]), p, nul, delims, t)
                    && tok == Some(t.start)
                    && last == (if t.end == nul then None else Some(t.end + 1))
                    && buf[..] == old(buf[..])[t.end := 0]
              }
    {
      t := Token(0, 0);
      var start := if s.Some? then s else last;
      if start == None {
        return None, t;
      }
      var p := start.value;
      ghost var delims := DelimSet(delim, delimEnd);
      var c := buf[p];
      p := p + 1;
      NoNulInSet(delim, delimEnd);
      var isDelim := IsDelimiter(delim, c, delimEnd);
      while isDelim
        invariant buf[..] == old(buf[..])
        invariant start.value < p <= nul + 1 && c == buf[p - 1]
        invariant isDelim <==> c in delims
        invariant NoToken(buf[..], start.value, p - 1, delims)
        decreases nul + 1 - p
      {
        c := buf[p];
        p := p + 1;
        isDelim := IsDelimiter(delim, c, delimEnd);
      }
      if c == 0 {
        last := None;
        return None, t;
      }
      var first := p - 1;
      while true
        invariant first < p <= nul && buf[..] == old(buf[..])
        invariant forall k :: first <= k < p ==> buf[k] !in delims
        decreases nul - p
      {
        c := buf[p];
        p := p + 1;
        var ends := EndsToken(delim, c, delimEnd);
        if ends {
          break;
        }
      }
      t := Token(first, p - 1);
      if c == 0 {
        last := None;
      } else {
        buf[p - 1] := 0;
        last := Some(p);
      }
      return Some(first), t;
    }
  }

  /** The text after a run: the byte at the end of each token has become NUL, every other byte is as before. */
  ghost predicate Cut<T>(b: seq<T>, b': seq<T>, ts: seq<Token>, zero: T) {
    && |b'| == |b|
    && (forall t :: t in ts ==> t.end < |b| && b'[t.end] == zero)
    && (forall k :: 0 <= k < |b| && b'[k] != b[k] ==> exists t :: t in ts && t.end == k)
  }

  /** The cuts leave the tokens themselves alone: each word reads as its segment, up to its new terminator. */
  lemma CutKeepsTokens<T>(b: seq<T>, b': seq<T>, p: nat, nul: nat, delims: set<T>, ts: seq<Token>, zero: T)
    requires p <= nul <= |b| && Cut(b, b', ts, zero)
    requires forall t :: t in ts ==> IsToken(b, p, nul, delims, t)
    ensures forall t, k :: t in ts && t.start <= k < t.end ==> b'[k] == b[k]
  {
  }

  lemma CutNext<T>(b: seq<T>, b1: seq<T>, b2: seq<T>, ts: seq<Token>, t: Token, zero: T)
    requires Cut(b, b1, ts, zero) && t.end < |b1| && b2 == b1[t.end := zero]
    ensures Cut(b, b2, ts + [t], zero)
  {
  }

  /** What the next call finds is the same whether earlier calls have cut the text before it or not. */
  lemma SameNext<T>(b: seq<T>, b1: seq<T>, q: nat, nul: nat, delims: set<T>, t: Token)
    requires q <= nul <= |b| == |b1| && forall k :: q <= k < |b| ==> b1[k] == b[k]
    ensures IsNext(b1, q, nul, delims, t) <==> IsNext(b, q, nul, delims, t)
    ensures NoToken(b1, q, nul, delims) <==> NoToken(b, q, nul, delims)
  {
  }

  /**
   Between two steps of the tokenizing loop over the string at s: ts has been processed, and tok and t
   are what the last call returned.
   */
  ghost predicate LoopState<T>(b: seq<T>, b1: seq<T>, s: nat, nul: nat, delims: set<T>, zero: T,
                               ts: seq<Token>, tok: Option<nat>, t: Token, last: Option<nat>)
    requires s <= nul < |b|
  {
    match tok
    case None => last == None && Run(b, s, nul, delims, ts) && Cut(b, b1, ts, zero)
    case Some(word) =>
      && word == t.start <= t.end <= nul
      && (t.end == nul ==> last == None && Run(b, s, nul, delims, ts + [t]))
      && (t.end < nul ==> last == Some(t.end + 1) && Reached(b, s, t.end + 1, nul, delims, ts + [t]))
      && Cut(b, b1, ts + [t], zero)
      && forall k :: t.end < k < |b| ==> b1[k] == b[k]
  }

  /** What one call from position q does to the loop. */
  lemma LoopStep<T>(b: seq<T>, b1: seq<T>, b2: seq<T>, s: nat, q: nat, nul: nat, delims: set<T>, zero: T,
                    ts: seq<Token>, tok: Option<nat>, t: Token, last: Option<nat>)
    requires s <= nul < |b| && q <= nul
    requires Reached(b, s, q, nul, delims, ts) && Cut(b, b1, ts, zero)
    requires forall k :: q <= k < |b| ==> b1[k] == b[k]
    requires if NoToken(b1, q, nul, delims) then tok == None && last == None && b2 == b1
             else
               && IsNext(b1, q, nul, delims, t) && tok == Some(t.start)
               && last == (if t.end == nul then None else Some(t.end + 1))
               && b2 == b1[t.end := zero]
    ensures LoopState(b, b2, s, nul, delims, zero, ts, tok, t, last)
    ensures tok.Some? ==> t.start >= q
  {
    SameNext(b, b1, q, nul, delims, t);
    if NoToken(b1, q, nul, delims) {
      ReachedEnd(b, s, q, nul, delims, ts);
    } else {
      ReachedNext(b, s, q, nul, delims, ts, t);
      CutNext(b, b1, b2, ts, t, zero);
    }
  }

  /**
   The loop for(word = strtok(test, sep); word; word = strtok(NULL, sep)) over the string at s: the words
   are exactly the maximal segments without delimiters, in order, the text is cut after each and nowhere
   else, and the next call returns NULL again.
   */
  method TokenizeAll(state: Saved, test: array<byte>, s: nat, sep: seq<byte>, ghost nul: nat, ghost sepEnd: nat)
    returns (words: seq<nat>, ghost ts: seq<Token>)
    requires FirstAt(sep, 0, sepEnd, 0) && FirstAt(test[..], s, nul, 0)
    modifies state, test
    ensures |words| == |ts| && forall i :: 0 <= i < |ts| ==> words[i] == ts[i].start
    ensures forall t :: t in ts <==> IsToken(old(test[..]), s, nul, DelimSet(sep, sepEnd), t)
    ensures Ascending(ts)
    ensures Cut(old(test[..]), test[..], ts, 0)
    ensures forall t, k :: t in ts && t.start <= k < t.end ==> test[k] == old(test[k])
    ensures state.last == None
  {
    hide Reached, Cut, Run;
    ghost var b, delims := test[..], DelimSet(sep, sepEnd);
    words, ts := [], [];
    var word, t := state.StrtokR(test, Some(s), sep, nul, sepEnd);
    ReachedStart(b, s, nul, delims);
    LoopStep(b, b, test[..], s, s, nul, delims, 0, ts, word, t, state.last);
    while word.Some?
      invariant |words| == |ts| && forall i :: 0 <= i < |ts| ==> words[i] == ts[i].start
      invariant LoopState(b, test[..], s, nul, delims, 0, ts, word, t, state.last)
      decreases if word.Some? then nul + 1 - t.start else 0
    {
      words, ts := words + [word.value], ts + [t];
      ghost var b1, q := test[..], t.end + 1;
      word, t := state.StrtokR(test, None, sep, nul, sepEnd);
      if q <= nul {
        LoopStep(b, b1, test[..], s, q, nul, delims, 0, ts, word, t, state.last);
      }
    }
    RunIsAllTokens(b, s, nul, delims, ts);
    CutKeepsTokens(b, test[..], s, nul, delims, ts, 0);
  }
}
