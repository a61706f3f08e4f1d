/**
 * Links from the repository's own expectations, worked through the model.
 * The URL parser is not modelled, so each case fixes the parsed fields the
 * WHATWG parser would give.
 */
module WorkedCases {
  import opened Urls
  import opened SecretRuns
  import opened DetectionMethods

  /** `https://justaregularlink.com/lkjljkljlj`: the path holds the six consonants `lkjljk` in a row. */
  lemma SecretLikePath(u: Url)
    requires u.host == "justaregularlink.com" && u.pathname == "/lkjljkljlj"
    ensures SecretLikeText(Chunk(u), 5)
  {
    assert Chunk(u) == "justaregularlink.com/lkjljkljlj";
    BlockInTextIsSecretLike(Chunk(u), 5, 21, Consonant);
  }

  /** `https://awwwwwwwwebsitewithtoomanyconsons.com/`: eight `w` in a row. */
  lemma SecretLikeConsonants(u: Url)
    requires u.host == "awwwwwwwwebsitewithtoomanyconsons.com" && u.pathname == "/"
    ensures SecretLikeText(Chunk(u), 5)
  {
    assert Chunk(u) == "awwwwwwwwebsitewithtoomanyconsons.com/";
    BlockInTextIsSecretLike(Chunk(u), 5, 1, Consonant);
  }

  /** `https://awebiiiiiiiiitewithtoomanyvoyels.com/`: nine `i` in a row. */
  lemma SecretLikeVowels(u: Url)
    requires u.host == "awebiiiiiiiiitewithtoomanyvoyels.com" && u.pathname == "/"
    ensures SecretLikeText(Chunk(u), 5)
  {
    assert Chunk(u) == "awebiiiiiiiiitewithtoomanyvoyels.com/";
    BlockInTextIsSecretLike(Chunk(u), 5, 4, Vowel);
  }

  /** `https://mozilla.com/` is flagged when `.com` is listed: its top-level domain is `.com`. */
  lemma TopLevelDomainCom()
    ensures GetTLD("mozilla.com") == ".com"
  {
    TLDFromLastDot("mozilla.com", 7);
  }

  /** `https://justaregularlink.ca/` has top-level domain `.ca`. */
  lemma TopLevelDomainCa()
    ensures GetTLD("justaregularlink.ca") == ".ca"
  {
    TLDFromLastDot("justaregularlink.ca", 16);
  }
}
