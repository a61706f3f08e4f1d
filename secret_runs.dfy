/**
 * The run-length counters of the secret-like check, as functions of the text
 * scanned so far, and an independent description of when they overflow: a
 * block of more than `limit` consecutive consonants or vowels among the
 * letters of the text, where characters that are neither are simply dropped.
 */
module SecretRuns {

  /** The lower-case letters the check counts as consonants. */
  const Consonants: string := "bcdfghjklmnpqrstvwxz"
  /** The lower-case letters the check counts as vowels; `y` is one of them. */
  const Vowels: string := "aeiouy"

  /** A vowel of the scan, by comparison with each letter of `Vowels`. */
  predicate IsVowel(c: char) {
    c == 'a' || c == 'e' || c == 'i' || c == 'o' || c == 'u' || c == 'y'
  }

  /** A consonant of the scan: a lower-case ASCII letter that is not a vowel. */
  predicate IsConsonant(c: char) {
    'a' <= c <= 'z' && !IsVowel(c)
  }

  /**
   * The two letter strings hold exactly the consonants and the vowels, and
   * neither repeats a letter, so a character matches at most once in the
   * passes over them.
   */
  lemma {:induction false} ListsAreTheKinds()
    ensures forall c :: c in Consonants <==> IsConsonant(c)
    ensures forall c :: c in Vowels <==> IsVowel(c)
    ensures forall a, b :: 0 <= a < b < |Consonants| ==> Consonants[a] < Consonants[b]
    ensures forall a, b :: 0 <= a < b < |Vowels| ==> Vowels[a] < Vowels[b]
  {
    ConsonantsListed();
  }

  lemma ConsonantsListed()
    ensures forall c :: c in Consonants <==> IsConsonant(c)
  {
    forall c | IsConsonant(c)
      ensures c in Consonants
    {
      assert 'b' <= c <= 'z';
    }
  }

  datatype Kind = Consonant | Vowel

  predicate Is(k: Kind, c: char) {
    match k
    case Consonant => IsConsonant(c)
    case Vowel => IsVowel(c)
  }

  /** A character that moves the counters: anything else (digits, `.`, `/`, `:`, upper case) is skipped. */
  predicate IsLetter(c: char) {
    IsConsonant(c) || IsVowel(c)
  }

  /** The two counters: the current run of consonants and the current run of vowels. */
  datatype Counters = Counters(consonants: nat, vowels: nat)

  /** One character of the scan: a consonant extends the consonant run and ends the vowel run, a vowel the reverse. */
  function Step(k: Counters, c: char): (r: Counters)
    ensures (k.consonants == 0 || k.vowels == 0) ==> (r.consonants == 0 || r.vowels == 0)
    ensures r.consonants + r.vowels <= k.consonants + k.vowels + 1
  {
    if IsConsonant(c) then Counters(k.consonants + 1, 0)
    else if IsVowel(c) then Counters(0, k.vowels + 1)
    else k
  }

  /** The counters after scanning all of `s`, starting from zero. */
  function Run(s: string): (k: Counters)
    ensures k.consonants == 0 || k.vowels == 0
    ensures k.consonants + k.vowels <= |s|
    decreases |s|
  {
    if s == [] then Counters(0, 0) else Step(Run(s[..|s| - 1]), s[|s| - 1])
  }

  /** Scanning one more character of `s` is one more step. */
  lemma RunOneMore(s: string, i: nat)
    requires i < |s|
    ensures Run(s[..i + 1]) == Step(Run(s[..i]), s[i])
  {
    assert s[..i + 1][..i] == s[..i];
  }

  predicate Exceeds(k: Counters, limit: int) {
    k.consonants > limit || k.vowels > limit
  }

  /** The scan stops with `true` after some character, when a counter has gone above `limit`. */
  predicate SecretLikeText(s: string, limit: int)
    ensures SecretLikeText(s, limit) && limit >= 0 ==> |s| > limit
  {
    exists i :: 1 <= i <= |s| && Exceeds(Run(s[..i]), limit)
  }

  /** Inside a stretch of letters of one kind the matching counter climbs by one per letter. */
  lemma {:induction false} RunClimbsOnBlock(s: string, j: nat, n: nat, k: Kind)
    requires j + n <= |s| && forall t :: j <= t < j + n ==> Is(k, s[t])
    ensures k == Consonant ==> Run(s[..j + n]).consonants >= n
    ensures k == Vowel ==> Run(s[..j + n]).vowels >= n
    decreases n
  {
    if n > 0 {
      RunClimbsOnBlock(s, j, n - 1, k);
      var c := s[j + n - 1];
      assert Is(k, c);
      RunOneMore(s, j + n - 1);
    }
  }

  /** Any stretch of more than `limit` consonants, or of vowels, in the text makes the scan report it. */
  lemma {:induction false} BlockInTextIsSecretLike(s: string, limit: nat, j: nat, k: Kind)
    requires j + limit + 1 <= |s| && forall t :: j <= t < j + limit + 1 ==> Is(k, s[t])
    ensures SecretLikeText(s, limit)
  {
    RunClimbsOnBlock(s, j, limit + 1, k);
    assert Exceeds(Run(s[..j + limit + 1]), limit);
  }

  // ---- The reference description ----

  /** The letters of `s`, in order, with every other character dropped. */
  function Letters(s: string): (l: string)
    ensures |l| <= |s|
    decreases |s|
  {
    if s == [] then []
    else Letters(s[..|s| - 1]) + (if IsLetter(s[|s| - 1]) then [s[|s| - 1]] else [])
  }

  /** The length of the longest suffix of `l` made only of letters of kind `k`. */
  function TrailingRun(l: string, k: Kind): (n: nat)
    ensures n <= |l|
    decreases |l|
  {
    if l == [] || !Is(k, l[|l| - 1]) then 0 else TrailingRun(l[..|l| - 1], k) + 1
  }

  predicate AllOfKind(w: string, k: Kind) {
    forall t :: 0 <= t < |w| ==> Is(k, w[t])
  }

  /** `l` holds `n` consecutive letters of kind `k` from index `j` on. */
  predicate BlockAt(l: string, n: nat, k: Kind, j: int) {
    0 <= j <= |l| - n && AllOfKind(l[j..j + n], k)
  }

  /** `l` holds `n` consecutive letters of kind `k`. */
  predicate HasBlock(l: string, n: nat, k: Kind) {
    exists j :: 0 <= j <= |l| - n && BlockAt(l, n, k, j)
  }

  // ---- Lemmas ----

  /** Each counter is the length of the current run of its kind among the letters seen so far. */
  lemma {:induction false} CountersAreTrailingRuns(s: string)
    ensures Run(s).consonants == TrailingRun(Letters(s), Consonant)
    ensures Run(s).vowels == TrailingRun(Letters(s), Vowel)
    decreases |s|
  {
    if s != [] {
      var init, c := s[..|s| - 1], s[|s| - 1];
      CountersAreTrailingRuns(init);
      var l := Letters(init);
      assert Run(s) == Step(Run(init), c);
      if IsLetter(c) {
        var l' := l + [c];
        assert Letters(s) == l';
        assert l'[..|l'| - 1] == l && l'[|l'| - 1] == c;
        if IsConsonant(c) {
          assert TrailingRun(l', Consonant) == TrailingRun(l, Consonant) + 1;
          assert TrailingRun(l', Vowel) == 0;
        } else {
          assert TrailingRun(l', Consonant) == 0;
          assert TrailingRun(l', Vowel) == TrailingRun(l, Vowel) + 1;
        }
      } else {
        assert Letters(s) == l;
      }
    }
  }

  /** A trailing run reaches `n` exactly when the last `n` letters are all of that kind. */
  lemma {:induction false} TrailingRunAtLeast(l: string, k: Kind, n: nat)
    ensures n <= TrailingRun(l, k) <==> n <= |l| && AllOfKind(l[|l| - n..], k)
    decreases |l|
  {
    if 0 < n <= |l| {
      var init := l[..|l| - 1];
      TrailingRunAtLeast(init, k, n - 1);
      var w, w' := l[|l| - n..], init[|init| - (n - 1)..];
      assert |w| == n && |w'| == n - 1 && w[n - 1] == l[|l| - 1];
      assert forall t :: 0 <= t < n - 1 ==> w[t] == w'[t];
      if AllOfKind(w, k) {
        assert Is(k, l[|l| - 1]) by { assert w[n - 1] == l[|l| - 1]; }
        forall t | 0 <= t < n - 1
          ensures Is(k, w'[t])
        {
          assert w'[t] == w[t];
        }
      }
      if n <= TrailingRun(l, k) {
        assert Is(k, l[|l| - 1]) && AllOfKind(w', k);
        forall t | 0 <= t < n
          ensures Is(k, w[t])
        {
          if t < n - 1 {
            assert w[t] == w'[t];
          }
        }
      }
    }
  }

  /** The letters of a prefix are a prefix of the letters. */
  lemma {:induction false} LettersOfPrefix(s: string, i: nat)
    requires i <= |s|
    ensures |Letters(s[..i])| <= |Letters(s)|
    ensures Letters(s[..i]) == Letters(s)[..|Letters(s[..i])|]
    decreases |s|
  {
    if i < |s| {
      var init := s[..|s| - 1];
      LettersOfPrefix(init, i);
      assert init[..i] == s[..i];
    } else {
      assert s[..i] == s;
    }
  }

  /** Every prefix of the letters is the letters of some prefix. */
  lemma {:induction false} PrefixOfLetters(s: string, m: nat)
    requires m <= |Letters(s)|
    ensures exists i :: 0 <= i <= |s| && Letters(s[..i]) == Letters(s)[..m]
    decreases |s|
  {
    if m == |Letters(s)| {
      assert s[..|s|] == s;
    } else {
      var init := s[..|s| - 1];
      PrefixOfLetters(init, m);
      var i :| 0 <= i <= |init| && Letters(init[..i]) == Letters(init)[..m];
      assert init[..i] == s[..i];
    }
  }

  /** A counter that overflows marks a block of more than `limit` letters of one kind. */
  lemma {:induction false} SecretLikeHasBlock(s: string, limit: nat, i: nat)
    requires 1 <= i <= |s| && Exceeds(Run(s[..i]), limit)
    ensures HasBlock(Letters(s), limit + 1, Consonant) || HasBlock(Letters(s), limit + 1, Vowel)
  {
    var l, n: nat := Letters(s), limit + 1;
    var p := Letters(s[..i]);
    CountersAreTrailingRuns(s[..i]);
    LettersOfPrefix(s, i);
    var k := if Run(s[..i]).consonants > limit then Consonant else Vowel;
    TrailingRunAtLeast(p, k, n);
    assert l[|p| - n..|p|] == p[|p| - n..];
    assert BlockAt(l, n, k, |p| - n);
  }

  /** The letters up to the end of a block end in a run at least as long as the block. */
  lemma BlockEndsTrailingRun(l: string, n: nat, k: Kind, j: nat)
    requires BlockAt(l, n, k, j)
    ensures TrailingRun(l[..j + n], k) >= n
  {
    var p := l[..j + n];
    assert p[|p| - n..] == l[j..j + n];
    TrailingRunAtLeast(p, k, n);
  }

  /** A block of more than `limit` letters of one kind makes a counter overflow at its last letter. */
  lemma {:induction false} BlockMakesSecretLike(s: string, limit: nat, k: Kind)
    requires HasBlock(Letters(s), limit + 1, k)
    ensures SecretLikeText(s, limit)
  {
    var l, n: nat := Letters(s), limit + 1;
    var j :| 0 <= j <= |l| - n && BlockAt(l, n, k, j);
    BlockEndsTrailingRun(l, n, k, j);
    PrefixOfLetters(s, j + n);
    var i :| 0 <= i <= |s| && Letters(s[..i]) == l[..j + n];
    assert i >= 1;
    CountersAreTrailingRuns(s[..i]);
    assert Exceeds(Run(s[..i]), limit) by {
      match k
      case Consonant => assert Run(s[..i]).consonants >= n;
      case Vowel => assert Run(s[..i]).vowels >= n;
    }
  }

  /**
   * The scan reports a secret-like text exactly when its letters contain more
   * than `limit` consonants in a row or more than `limit` vowels in a row.
   * Characters that are not letters neither extend nor break a run.
   */
  lemma {:induction false} SecretLikeIffLongBlock(s: string, limit: nat)
    ensures SecretLikeText(s, limit)
        <==> HasBlock(Letters(s), limit + 1, Consonant) || HasBlock(Letters(s), limit + 1, Vowel)
  {
    if SecretLikeText(s, limit) {
      var i :| 1 <= i <= |s| && Exceeds(Run(s[..i]), limit);
      SecretLikeHasBlock(s, limit, i);
    }
    if HasBlock(Letters(s), limit + 1, Consonant) {
      BlockMakesSecretLike(s, limit, Consonant);
    }
    if HasBlock(Letters(s), limit + 1, Vowel) {
      BlockMakesSecretLike(s, limit, Vowel);
    }
  }
}
