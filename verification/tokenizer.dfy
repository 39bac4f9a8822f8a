/** `strtok_r` with the single delimiter " ", as a cursor over a line that is
    never modified. A token is a view (offset and length) into the line. */
module Tokenizer {
  import opened Wrappers
  import opened Config

  datatype Token = Token(start: nat, len: nat) {
    function End(): nat {
      start + len
    }
  }

  /** The characters of line `line` that token `t` views. */
  function Text(line: seq<char>, t: Token): seq<char>
    requires t.End() <= |line|
  {
    line[t.start..t.End()]
  }

  /** `t` is a maximal run of non-delimiter characters of `line`. */
  ghost predicate IsToken(line: seq<char>, t: Token) {
    && 0 < t.len
    && t.End() <= |line|
    && (forall k :: t.start <= k < t.End() ==> line[k] != Delimiter)
    && (t.start == 0 || line[t.start - 1] == Delimiter)
    && (t.End() == |line| || line[t.End()] == Delimiter)
  }

  /** `t` is the first run of non-delimiters at or after position `from`,
      taken up to the next delimiter or the end of the line. */
  ghost predicate FirstRunFrom(line: seq<char>, from: nat, t: Token) {
    && from <= t.start
    && 0 < t.len
    && t.End() <= |line|
    && (forall k :: from <= k < t.start ==> line[k] == Delimiter)
    && (forall k :: t.start <= k < t.End() ==> line[k] != Delimiter)
    && (t.End() == |line| || line[t.End()] == Delimiter)
  }

  /** Nothing but delimiters from `from` to the end of the line. */
  ghost predicate ExhaustedFrom(line: seq<char>, from: nat) {
    forall k :: from <= k < |line| ==> line[k] == Delimiter
  }

  /** A position where no token can be cut short: the start or the end of
      the line, or just after a delimiter. */
  ghost predicate Boundary(line: seq<char>, from: nat) {
    from == 0 || from == |line| || (from < |line| && line[from - 1] == Delimiter)
  }

  /** Index of the first non-delimiter at or after `i`. */
  function SkipDelimiters(line: seq<char>, i: nat): (j: nat)
    requires i <= |line|
    ensures i <= j <= |line|
    ensures forall k :: i <= k < j ==> line[k] == Delimiter
    ensures j < |line| ==> line[j] != Delimiter
    decreases |line| - i
  {
    if i < |line| && line[i] == Delimiter then SkipDelimiters(line, i + 1) else i
  }

  /** Index of the first delimiter (or the end of the line) at or after `i`. */
  function RunEnd(line: seq<char>, i: nat): (j: nat)
    requires i <= |line|
    ensures i <= j <= |line|
    ensures forall k :: i <= k < j ==> line[k] != Delimiter
    ensures j < |line| ==> line[j] == Delimiter
    decreases |line| - i
  {
    if i < |line| && line[i] != Delimiter then RunEnd(line, i + 1) else i
  }

  /** The result of one `strtok_r` call: the token, if any, and where the
      save pointer is left for the next call. */
  datatype Scan = Scan(token: Option<Token>, next: nat)

  /** One `strtok_r` call that starts scanning at position `from`. A token
      found before a delimiter has that delimiter consumed (the source
      overwrites it with NUL and resumes after it); a token at the end of the
      line, or no token, leaves the cursor at the end. */
  function StrTok(line: seq<char>, from: nat): (r: Scan)
    requires from <= |line|
    ensures r.next <= |line|
    ensures r.token.None? <==> ExhaustedFrom(line, from)
    ensures r.token.None? ==> r.next == |line|
    ensures r.token.Some? ==> FirstRunFrom(line, from, r.token.value)
    ensures r.token.Some? ==>
              r.next == (if r.token.value.End() < |line| then r.token.value.End() + 1 else |line|)
    ensures r.token.Some? ==> from < r.next && Boundary(line, r.next)
  {
    var s := SkipDelimiters(line, from);
    if s == |line| then
      Scan(None, |line|)
    else
      var e := RunEnd(line, s);
      Scan(Some(Token(s, e - s)), if e < |line| then e + 1 else e)
  }

  /** Every token `strtok_r` hands out, in order, when called from `from`
      until it returns NULL. */
  function Tokens(line: seq<char>, from: nat): seq<Token>
    requires from <= |line|
    decreases |line| - from
  {
    var r := StrTok(line, from);
    if r.token.None? then [] else [r.token.value] + Tokens(line, r.next)
  }

  /** Tokens listed left to right, each ending before the next begins. */
  ghost predicate LeftToRight(ts: seq<Token>) {
    forall i, j :: 0 <= i < j < |ts| ==> ts[i].End() < ts[j].start
  }

  /** From a boundary, `strtok_r` hands out exactly the maximal runs of
      non-delimiters that start at or after it, left to right. */
  lemma {:induction false} TokensAreTheMaximalRuns(line: seq<char>, from: nat)
    requires from <= |line| && Boundary(line, from)
    ensures forall t :: t in Tokens(line, from) <==> IsToken(line, t) && from <= t.start
    ensures LeftToRight(Tokens(line, from))
    decreases |line| - from
  {
    var r := StrTok(line, from);
    if r.token.None? {
      forall t: Token | from <= t.start < |line|
        ensures !IsToken(line, t)
      {
        NoTokenBeforeRun(line, from, |line|, t);
      }
    } else {
      var t0 := r.token.value;
      var rest := Tokens(line, r.next);
      TokensAreTheMaximalRuns(line, r.next);
      assert Tokens(line, from) == [t0] + rest;
      assert IsToken(line, t0) by {
        if t0.start > from {
          assert line[t0.start - 1] == Delimiter;
        }
      }
      forall t: Token | from <= t.start < t0.start
        ensures !IsToken(line, t)
      {
        NoTokenBeforeRun(line, from, t0.start, t);
      }
      forall t | IsToken(line, t) && from <= t.start
        ensures t in Tokens(line, from)
      {
        if t.start == t0.start {
          RunsFromSameStartAgree(line, t, t0);
        } else {
          assert line[t.start - 1] == Delimiter;
          assert t.start - 1 >= t0.End();
          assert t in rest;
        }
      }
      forall t | t in rest
        ensures t0.End() < t.start
      {
        assert IsToken(line, t) && r.next <= t.start;
      }
    }
  }

  lemma RunsFromSameStartAgree(line: seq<char>, t: Token, u: Token)
    requires IsToken(line, t) && t.start == u.start
    requires 0 < u.len && u.End() <= |line|
    requires forall k :: u.start <= k < u.End() ==> line[k] != Delimiter
    requires u.End() == |line| || line[u.End()] == Delimiter
    ensures t == u
  {
    assert t.End() < |line| ==> line[t.End()] == Delimiter;
    assert u.End() < |line| ==> line[u.End()] == Delimiter;
  }

  /** A stretch of delimiters holds no token start. */
  lemma NoTokenBeforeRun(line: seq<char>, from: nat, upto: nat, t: Token)
    requires upto <= |line|
    requires forall k :: from <= k < upto ==> line[k] == Delimiter
    requires from <= t.start < upto
    ensures !IsToken(line, t)
  {
    assert line[t.start] == Delimiter;
  }

  /** Once `strtok_r` has returned NULL it keeps returning NULL. */
  lemma ExhaustedStaysExhausted(line: seq<char>, from: nat)
    requires from <= |line|
    requires StrTok(line, from).token.None?
    ensures StrTok(line, StrTok(line, from).next).token.None?
  {
  }
}
