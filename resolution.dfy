/**
 * The image-URL rewrite of content.js: `url.replace(/\d+:\d+/, '2400:2400')`.
 * The regular expression is not global, so only its leftmost match is
 * replaced; `\d` is an ASCII digit and both `\d+` are greedy.
 */
module Resolution {
  import opened Basics

  /** The replacement token. */
  const HighRes: string := "2400:2400"

  predicate IsDigit(c: char)
  {
    '0' <= c <= '9'
  }

  /** The length of the run of digits starting at `i`. */
  function DigitRun(s: string, i: nat): (k: nat)
    requires i <= |s|
    ensures i + k <= |s|
    ensures forall j | i <= j < i + k :: IsDigit(s[j])
    ensures i + k == |s| || !IsDigit(s[i + k])
    decreases |s| - i
  {
    if i < |s| && IsDigit(s[i]) then 1 + DigitRun(s, i + 1) else 0
  }

  /** Where a match of `\d+:\d+` anchored at `i` ends, if there is one. */
  function MatchAt(s: string, i: nat): (r: Option<nat>)
    requires i <= |s|
    ensures r.Some? ==> i < r.value <= |s|
  {
    var k := DigitRun(s, i);
    if k > 0 && i + k + 1 < |s| && s[i + k] == ':' && IsDigit(s[i + k + 1])
    then Some(i + k + 1 + DigitRun(s, i + k + 1))
    else None
  }

  /** The leftmost match at or after `i`: its start and its end. */
  function FindFrom(s: string, i: nat): (r: Option<(nat, nat)>)
    requires i <= |s|
    ensures r.Some? ==> i <= r.value.0 < r.value.1 <= |s| && MatchAt(s, r.value.0) == Some(r.value.1)
    ensures r.Some? ==> forall j | i <= j < r.value.0 :: MatchAt(s, j).None?
    ensures r.None? ==> forall j | i <= j <= |s| :: MatchAt(s, j).None?
    decreases |s| - i
  {
    if i == |s| then None
    else if MatchAt(s, i).Some? then Some((i, MatchAt(s, i).value))
    else FindFrom(s, i + 1)
  }

  /** The regular expression's leftmost match in `s`, as start and end. */
  function FindToken(s: string): Option<(nat, nat)>
  {
    FindFrom(s, 0)
  }

  /** `s.replace(/\d+:\d+/, '2400:2400')`. */
  function Rewrite(s: string): string
  {
    match FindToken(s)
    case None => s
    case Some((i, j)) => s[..i] + HighRes + s[j..]
  }

  // ------------------------------------------------- reference definition

  /** `w` is digits, one `:`, digits, with at least one digit on each side. */
  ghost predicate IsToken(w: string)
  {
    exists m | 0 < m < |w| - 1 :: w[m] == ':' && forall k | 0 <= k < |w| && k != m :: IsDigit(w[k])
  }

  /** No token of `s` starts before `i`. */
  ghost predicate NoTokenBefore(s: string, i: nat)
  {
    forall a, b | 0 <= a < i && a < b <= |s| :: !IsToken(s[a..b])
  }

  /**
   * `(i, j)` is what the regular expression matches in `s`: a token starting
   * at `i` whose second digit run cannot be extended, with no token starting
   * any earlier.
   */
  ghost predicate LeftmostMatch(s: string, i: nat, j: nat)
  {
    i < j <= |s| && IsToken(s[i..j]) && (j == |s| || !IsDigit(s[j])) && NoTokenBefore(s, i)
  }

  /** A match found at `i` is a token whose end cannot be extended. */
  lemma MatchAtIsToken(s: string, i: nat)
    requires i <= |s| && MatchAt(s, i).Some?
    ensures var j := MatchAt(s, i).value; i < j <= |s| && IsToken(s[i..j]) && (j == |s| || !IsDigit(s[j]))
  {
    var j := MatchAt(s, i).value;
    var m := DigitRun(s, i);
    var w := s[i..j];
    assert w[m] == ':';
    forall k | 0 <= k < |w| && k != m ensures IsDigit(w[k]) {
      assert w[k] == s[i + k];
    }
  }

  /** A token starting at `i` has its colon where the digit run from `i` ends, and digits after it up to its end. */
  lemma TokenShape(s: string, i: nat, j: nat)
    requires i < j <= |s| && IsToken(s[i..j])
    ensures var m := DigitRun(s, i);
      0 < m && i + m + 1 < j && s[i + m] == ':' && forall k | i + m < k < j :: IsDigit(s[k])
  {
    var w := s[i..j];
    var m :| 0 < m < |w| - 1 && w[m] == ':' && forall k | 0 <= k < |w| && k != m :: IsDigit(w[k]);
    forall k | i <= k < j && k != i + m ensures IsDigit(s[k]) {
      assert w[k - i] == s[k];
    }
    assert s[i + m] == w[m];
    assert DigitRun(s, i) == m;
  }

  /** Wherever a token starts, `MatchAt` finds a match. */
  lemma TokenIsMatched(s: string, i: nat, j: nat)
    requires i < j <= |s|
    ensures IsToken(s[i..j]) ==> MatchAt(s, i).Some?
  {
    if IsToken(s[i..j]) {
      TokenShape(s, i, j);
    }
  }

  /** The search finds exactly the regular expression's leftmost match, or reports there is no token at all. */
  lemma FindTokenSpec(s: string)
    ensures FindToken(s).Some? ==> LeftmostMatch(s, FindToken(s).value.0, FindToken(s).value.1)
    ensures FindToken(s).None? ==> NoTokenBefore(s, |s| + 1)
  {
    var r := FindToken(s);
    if r.Some? {
      MatchAtIsToken(s, r.value.0);
      forall a, b | 0 <= a < r.value.0 && a < b <= |s| ensures !IsToken(s[a..b]) {
        TokenIsMatched(s, a, b);
      }
    } else {
      forall a, b | 0 <= a < |s| + 1 && a < b <= |s| ensures !IsToken(s[a..b]) {
        TokenIsMatched(s, a, b);
      }
    }
  }

  /** Two tokens starting at the same place whose ends cannot be extended are the same. */
  lemma GreedyEndUnique(s: string, i: nat, j1: nat, j2: nat)
    requires i < j1 <= |s| && IsToken(s[i..j1]) && (j1 == |s| || !IsDigit(s[j1]))
    requires i < j2 <= |s| && IsToken(s[i..j2]) && (j2 == |s| || !IsDigit(s[j2]))
    ensures j1 == j2
  {
    TokenShape(s, i, j1);
    TokenShape(s, i, j2);
  }

  /** The leftmost match is unique, so any `(i, j)` that is one is what the search returns. */
  lemma LeftmostMatchIsFound(s: string, i: nat, j: nat)
    requires LeftmostMatch(s, i, j)
    ensures FindToken(s) == Some((i, j))
  {
    FindTokenSpec(s);
    var r := FindToken(s);
    if r.Some? {
      var (a, b) := r.value;
      assert a == i;
      GreedyEndUnique(s, i, j, b);
    }
  }

  /** A token begins with a digit. */
  lemma TokenStartsWithDigit(s: string, a: nat, b: nat)
    requires a < b <= |s|
    ensures IsToken(s[a..b]) ==> IsDigit(s[a])
  {
    if IsToken(s[a..b]) {
      TokenShape(s, a, b);
    }
  }

  /** Digits from `a`, a colon at `c`, digits up to `b`: a token. */
  lemma MakeToken(s: string, a: nat, c: nat, b: nat)
    requires a < c && c + 1 < b <= |s| && s[c] == ':'
    requires forall k | a <= k < b && k != c :: IsDigit(s[k])
    ensures IsToken(s[a..b])
  {
    var w := s[a..b];
    assert w[c - a] == ':';
    forall k | 0 <= k < |w| && k != c - a ensures IsDigit(w[k]) {
      assert w[k] == s[a + k];
    }
  }

  /** `Rewrite` replaces exactly the leftmost match and keeps everything around it, later tokens included. */
  lemma RewriteReplacesLeftmost(s: string, i: nat, j: nat)
    requires LeftmostMatch(s, i, j)
    ensures Rewrite(s) == s[..i] + HighRes + s[j..]
  {
    LeftmostMatchIsFound(s, i, j);
  }

  /** A URL without any token is returned unchanged. */
  lemma RewriteWithoutToken(s: string)
    requires NoTokenBefore(s, |s| + 1)
    ensures Rewrite(s) == s
  {
    FindTokenSpec(s);
  }

  /** The replacement is itself a token. */
  lemma HighResIsToken()
    ensures IsToken(HighRes)
  {
    MakeToken(HighRes, 0, 4, 9);
    assert HighRes[0..9] == HighRes;
  }

  /** Splicing `r` over `s[i..j]`: the prefix before `i`, then `r`, then the tail from `j`. */
  lemma Splice(s: string, i: nat, j: nat, r: string)
    requires i <= j <= |s|
    ensures var t := s[..i] + r + s[j..];
      |t| == i + |r| + |s| - j && t[..i] == s[..i] && t[i..i + |r|] == r && t[i + |r|..] == s[j..]
      && (forall k | 0 <= k < i :: t[k] == s[k]) && (j < |s| ==> t[i + |r|] == s[j])
  {
  }

  /** A digit just before a token extends it to the left. */
  lemma ExtendLeft(s: string, i: nat, j: nat)
    requires 0 < i < j <= |s| && IsToken(s[i..j]) && IsDigit(s[i - 1])
    ensures IsToken(s[i - 1..j])
  {
    TokenShape(s, i, j);
    MakeToken(s, i - 1, i + DigitRun(s, i), j);
  }

  /**
   * A token of `t` that starts before `i`, where `t` agrees with `s` before
   * `i` and `s[i..j]` is a token, gives a token of `s` that starts before
   * `i`: either its colon lies in the shared prefix, or the prefix ends in a
   * digit that extends the token at `i` to the left.
   */
  lemma EarlyToken(s: string, t: string, i: nat, j: nat, a: nat, b: nat) returns (a': nat, b': nat)
    requires i < j <= |s| && IsToken(s[i..j])
    requires i <= |t| && forall k | 0 <= k < i :: t[k] == s[k]
    requires a < i && a < b <= |t| && IsToken(t[a..b])
    ensures a' < i && a' < b' <= |s| && IsToken(s[a'..b'])
  {
    var w := t[a..b];
    var m :| 0 < m < |w| - 1 && w[m] == ':' && forall k | 0 <= k < |w| && k != m :: IsDigit(w[k]);
    assert forall k | a <= k < i && k < a + m :: IsDigit(s[k]) by {
      forall k | a <= k < i && k < a + m ensures IsDigit(s[k]) {
        assert w[k - a] == t[k];
      }
    }
    if a + m < i {
      assert w[m] == t[a + m];
      assert a + m + 1 < i ==> w[m + 1] == t[a + m + 1];
      ColonInPrefix(s, i, j, a, a + m);
      a', b' := a, a + m + 2;
    } else {
      ExtendLeft(s, i, j);
      a', b' := i - 1, j;
    }
  }

  /** Digits from `a`, a colon at `c` before the token at `i`, and a digit after it: a token of `s`. */
  lemma ColonInPrefix(s: string, i: nat, j: nat, a: nat, c: nat)
    requires i < j <= |s| && IsToken(s[i..j])
    requires a < c < i && s[c] == ':' && (c + 1 < i ==> IsDigit(s[c + 1]))
    requires forall k | a <= k < c :: IsDigit(s[k])
    ensures IsToken(s[a..c + 2])
  {
    TokenStartsWithDigit(s, i, j);
    MakeToken(s, a, c, c + 2);
  }

  /** Rewriting an already rewritten URL changes nothing: the inserted token becomes the leftmost match. */
  lemma RewriteIdempotent(s: string)
    ensures Rewrite(Rewrite(s)) == Rewrite(s)
  {
    FindTokenSpec(s);
    if FindToken(s).Some? {
      var (i, j) := FindToken(s).value;
      var t := s[..i] + HighRes + s[j..];
      var e := i + |HighRes|;
      Splice(s, i, j, HighRes);
      HighResIsToken();
      forall a, b | 0 <= a < i && a < b <= |t| ensures !IsToken(t[a..b]) {
        if IsToken(t[a..b]) {
          var a', b' := EarlyToken(s, t, i, j, a, b);
        }
      }
      assert LeftmostMatch(t, i, e);
      LeftmostMatchIsFound(t, i, e);
    }
  }

  /** `w` holds no digit. */
  predicate DigitFree(w: string)
  {
    forall k | 0 <= k < |w| :: !IsDigit(w[k])
  }

  /** A digit-free prefix, a token, and a tail that does not continue it: the token is what is replaced. */
  lemma RewriteAfterDigitFree(p: string, w: string, q: string)
    requires DigitFree(p) && IsToken(w) && (q == [] || !IsDigit(q[0]))
    ensures FindToken(p + w + q) == Some((|p|, |p| + |w|))
    ensures Rewrite(p + w + q) == p + HighRes + q
  {
    var s := p + w + q;
    var i, j := |p|, |p| + |w|;
    assert s[i..j] == w;
    assert j < |s| ==> s[j] == q[0];
    forall a, b | 0 <= a < i && a < b <= |s| ensures !IsToken(s[a..b]) {
      TokenStartsWithDigit(s, a, b);
      assert s[a] == p[a];
    }
    LeftmostMatchIsFound(s, i, j);
    assert s[..i] == p;
    assert s[j..] == q;
  }
}
