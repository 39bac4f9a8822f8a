/** The two C library routines the command table relies on: `strncpy`, which
    stores a command name in a fixed field, and `strncmp`, which compares a
    token against that field. */
module CString {
  import opened Config

  /** Character `i` of a NUL-terminated array; past the end there is only NUL. */
  function At(s: seq<char>, i: nat): char {
    if i < |s| then s[i] else Nul
  }

  predicate NulFree(s: seq<char>) {
    forall i :: 0 <= i < |s| ==> s[i] != Nul
  }

  /** The C string an array holds: everything before its first NUL. */
  function Content(s: seq<char>): (r: seq<char>)
    ensures NulFree(r)
    ensures r <= s
    ensures |r| < |s| ==> s[|r|] == Nul
  {
    if |s| == 0 || s[0] == Nul then [] else [s[0]] + Content(s[1..])
  }

  function Min(a: nat, b: nat): nat {
    if a <= b then a else b
  }

  /** The first `n` characters of `s`, or all of `s` when it is shorter. */
  function Truncate(s: seq<char>, n: nat): (r: seq<char>)
    ensures |r| == Min(|s|, n)
    ensures r <= s
  {
    if |s| <= n then s else s[..n]
  }

  /** `strncpy(field, src, n)` into an `n`-slot field: the first `n`
      characters of `src`, padded with NUL when `src` is shorter. */
  function StrNCpy(src: seq<char>, n: nat): (field: seq<char>)
    requires NulFree(src)
    ensures |field| == n
    ensures Content(field) == Truncate(src, n)
  {
    var kept := Truncate(src, n);
    var padding := seq(n - |kept|, _ => Nul);
    ContentOfTerminated(kept, padding);
    kept + padding
  }

  /** `strncmp(a, b, n) == 0`: compare at most `n` characters, stopping
      early at a NUL both arrays share. */
  function StrNEqual(a: seq<char>, b: seq<char>, n: nat): (r: bool)
    ensures r <==> AgreeUpToNul(a, b, n)
    decreases n
  {
    if n == 0 then true
    else if At(a, 0) != At(b, 0) then false
    else if At(a, 0) == Nul then true
    else
      AgreeUpToNulStep(a, b, n);
      StrNEqual(a[1..], b[1..], n - 1)
  }

  /** The comparison `strncmp` makes: every position below `n` that is not
      past a NUL of `a` holds the same character in both arrays. */
  ghost predicate AgreeUpToNul(a: seq<char>, b: seq<char>, n: nat) {
    forall i :: 0 <= i < n && NoNulBefore(a, i) ==> At(a, i) == At(b, i)
  }

  ghost predicate NoNulBefore(a: seq<char>, i: nat) {
    forall j :: 0 <= j < i ==> At(a, j) != Nul
  }

  lemma AgreeUpToNulStep(a: seq<char>, b: seq<char>, n: nat)
    requires n > 0 && At(a, 0) == At(b, 0) && At(a, 0) != Nul
    ensures AgreeUpToNul(a, b, n) <==> AgreeUpToNul(a[1..], b[1..], n - 1)
  {
    forall i: nat | i < |a| - 1
      ensures At(a[1..], i) == At(a, i + 1)
    {
    }
    forall i: nat
      ensures NoNulBefore(a[1..], i) <==> NoNulBefore(a, i + 1)
    {
      if NoNulBefore(a, i + 1) {
        forall j | 0 <= j < i ensures At(a[1..], j) != Nul {
          assert At(a, j + 1) != Nul;
        }
      }
      if NoNulBefore(a[1..], i) {
        forall j | 0 <= j < i + 1 ensures At(a, j) != Nul {
          if j > 0 {
            assert At(a[1..], j - 1) != Nul;
          }
        }
      }
    }
    if AgreeUpToNul(a[1..], b[1..], n - 1) {
      forall i | 0 <= i < n && NoNulBefore(a, i) ensures At(a, i) == At(b, i) {
        if i > 0 {
          assert NoNulBefore(a[1..], i - 1);
          assert At(a[1..], i - 1) == At(b[1..], i - 1);
        }
      }
    }
    if AgreeUpToNul(a, b, n) {
      forall i | 0 <= i < n - 1 && NoNulBefore(a[1..], i)
        ensures At(a[1..], i) == At(b[1..], i)
      {
        assert NoNulBefore(a, i + 1);
        assert At(a, i + 1) == At(b, i + 1);
      }
    }
  }

  /** A NUL-free prefix followed by a NUL (or by nothing) is the content. */
  lemma {:induction false} ContentOfTerminated(p: seq<char>, rest: seq<char>)
    requires NulFree(p)
    requires |rest| == 0 || rest[0] == Nul
    ensures Content(p + rest) == p
  {
    if |p| == 0 {
      assert p + rest == rest;
    } else {
      assert (p + rest)[1..] == p[1..] + rest;
      ContentOfTerminated(p[1..], rest);
      assert p == [p[0]] + p[1..];
    }
  }

  lemma TruncateCons(c: char, s: seq<char>, n: nat)
    requires n > 0
    ensures Truncate([c] + s, n) == [c] + Truncate(s, n - 1)
  {
    if |s| > n - 1 {
      assert ([c] + s)[..n] == [c] + s[..n - 1];
    }
  }

  /** `strncmp(a, b, n) == 0` holds exactly when the C strings held by `a`
      and `b` agree once both are cut to `n` characters: equality after
      truncation, not a prefix test. */
  lemma {:induction false} StrNEqualIffTruncatedEqual(a: seq<char>, b: seq<char>, n: nat)
    ensures StrNEqual(a, b, n) <==> Truncate(Content(a), n) == Truncate(Content(b), n)
    decreases n
  {
    if n == 0 {
    } else if At(a, 0) != At(b, 0) {
      FirstCharactersDiffer(a, b, n);
    } else if At(a, 0) == Nul {
    } else {
      StrNEqualIffTruncatedEqual(a[1..], b[1..], n - 1);
      TruncatedContentCons(a, n);
      TruncatedContentCons(b, n);
      ConsEqual(a[0], Truncate(Content(a[1..]), n - 1), Truncate(Content(b[1..]), n - 1));
    }
  }

  lemma ConsEqual(c: char, x: seq<char>, y: seq<char>)
    ensures [c] + x == [c] + y <==> x == y
  {
    if [c] + x == [c] + y {
      assert x == ([c] + x)[1..] && y == ([c] + y)[1..];
    }
  }

  lemma FirstCharactersDiffer(a: seq<char>, b: seq<char>, n: nat)
    requires n > 0 && At(a, 0) != At(b, 0)
    ensures Truncate(Content(a), n) != Truncate(Content(b), n)
  {
    var ta, tb := Truncate(Content(a), n), Truncate(Content(b), n);
    assert |ta| > 0 ==> ta[0] == At(a, 0);
    assert |tb| > 0 ==> tb[0] == At(b, 0);
    assert |ta| == 0 <==> At(a, 0) == Nul;
    assert |tb| == 0 <==> At(b, 0) == Nul;
  }

  lemma TruncatedContentCons(a: seq<char>, n: nat)
    requires n > 0 && At(a, 0) != Nul
    ensures Truncate(Content(a), n) == [a[0]] + Truncate(Content(a[1..]), n - 1)
  {
    assert Content(a) == [a[0]] + Content(a[1..]);
    TruncateCons(a[0], Content(a[1..]), n);
  }

  /** Text without NUL is its own C string. */
  lemma ContentOfNulFree(s: seq<char>)
    requires NulFree(s)
    ensures Content(s) == s
  {
    ContentOfTerminated(s, []);
    assert s + [] == s;
  }
}
