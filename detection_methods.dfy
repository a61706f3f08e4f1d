/**
 * The link-classification predicates. Each takes the URL parser as `parse` and
 * the reference tables (known shortening services, popular websites,
 * suspicious top-level domains) as read-only sequences, and returns its verdict;
 * the two that take a `limit` fail with `InvalidLimit` when it is below 1.
 */
module DetectionMethods {
  import opened Wrappers
  import opened Urls
  import opened JsString
  import opened SecretRuns
  import Levenshtein

  /** The error both limit-taking checks throw: "Expected a positive limit parameter". */
  datatype DetectionError = InvalidLimit

  // ---- isShortened ----

  /**
   * A link served by a known shortening service: its hostname contains some
   * listed entry and its path is not the bare root `/`.
   */
  method IsShortened(parse: Parser, href: string, shorteners: seq<string>) returns (r: bool)
    ensures r <==> parse(href).Some? && parse(href).value.pathname != "/"
                   && exists i :: 0 <= i < |shorteners| && Includes(parse(href).value.hostname, shorteners[i])
  {
    var url := parse(href);
    if url.None? {
      return false;
    }
    for i := 0 to |shorteners|
      invariant forall k :: 0 <= k < i ==> !(Includes(url.value.hostname, shorteners[k]) && url.value.pathname != "/")
    {
      if Includes(url.value.hostname, shorteners[i]) && url.value.pathname != "/" {
        return true;
      }
    }
    return false;
  }

  /** A subdomain of a listed shortener host still contains the listed entry. */
  lemma {:induction false} SubdomainStillShortened(prefix: string, hostname: string, entry: string)
    requires Includes(hostname, entry)
    ensures Includes(prefix + hostname, entry)
  {
    var i :| OccursAt(hostname, entry, i);
    assert (prefix + hostname)[|prefix| + i..|prefix| + i + |entry|] == hostname[i..i + |entry|];
    assert OccursAt(prefix + hostname, entry, |prefix| + i);
  }

  // ---- isHyphened ----

  /** A link whose hostname holds a hyphen; the path and query are not looked at. */
  function IsHyphened(parse: Parser, href: string): (r: bool)
    ensures r <==> parse(href).Some? && '-' in parse(href).value.hostname
  {
    match parse(href)
    case None => false
    case Some(url) =>
      IncludesChar(url.hostname, '-');
      Includes(url.hostname, "-")
  }

  /** Two links whose hostnames agree get the same verdict, whatever their paths. */
  lemma HyphenedIgnoresPath(parse: Parser, a: string, b: string)
    requires parse(a).Some? && parse(b).Some?
    requires parse(a).value.hostname == parse(b).value.hostname
    ensures IsHyphened(parse, a) == IsHyphened(parse, b)
  {}

  // ---- isFakingDestination ----

  /** A link whose displayed text, read as a URL, is not the same canonical URL as its target. */
  function IsFakingDestination(parse: Parser, href: string, text: string): (r: bool)
    ensures r ==> parse(href).Some? && parse(text).Some?
    ensures parse(href).Some? && parse(text).Some? ==> (r <==> parse(href).value.href != parse(text).value.href)
  {
    match parse(href)
    case None => false
    case Some(hrefLink) =>
      match parse(text)
      case None => false
      case Some(textLink) => textLink.href != hrefLink.href
  }

  /** Swapping the target and the displayed text does not change the verdict. */
  lemma FakingDestinationSymmetric(parse: Parser, a: string, b: string)
    ensures IsFakingDestination(parse, a, b) == IsFakingDestination(parse, b, a)
  {}

  /** A link that displays its own target is never flagged. */
  lemma NeverFakesItself(parse: Parser, s: string)
    ensures !IsFakingDestination(parse, s, s)
  {}

  // ---- isSecretLike ----

  /**
   * A link whose host (with port) and path hold an unnaturally long run of
   * consonants or of vowels. The scan follows the source's nested loops: for
   * each character, one pass over the consonants and one over the vowels.
   */
  method IsSecretLike(parse: Parser, href: string, limit: int := 5) returns (r: Result<bool, DetectionError>)
    ensures r.Err? <==> limit < 1
    ensures r.Err? ==> r.error == InvalidLimit
    ensures r.Ok? ==> (r.value <==> parse(href).Some? && SecretLikeText(Chunk(parse(href).value), limit))
  {
    if limit < 1 {
      return Err(InvalidLimit);
    }
    var urlChunk := "";
    var asUrl := parse(href);
    if asUrl.None? {
      return Ok(false);
    }
    urlChunk := Chunk(asUrl.value);
    var secretLike := ScanChunk(urlChunk, limit);
    return Ok(secretLike);
  }

  /**
   * The counter loop of the secret-like check over the scanned text, stopping
   * with `true` at the first character after which a counter exceeds `limit`.
   */
  method ScanChunk(urlChunk: string, limit: int) returns (r: bool)
    ensures r <==> SecretLikeText(urlChunk, limit)
  {
    var consonsCounter: nat, voyelsCounter: nat := 0, 0;
    for i := 0 to |urlChunk|
      invariant Counters(consonsCounter, voyelsCounter) == Run(urlChunk[..i])
      invariant forall j :: 1 <= j <= i ==> !Exceeds(Run(urlChunk[..j]), limit)
    {
      consonsCounter, voyelsCounter := CountLetter(urlChunk[i], consonsCounter, voyelsCounter);
      RunOneMore(urlChunk, i);
      if consonsCounter > limit || voyelsCounter > limit {
        assert Exceeds(Run(urlChunk[..i + 1]), limit);
        return true;
      }
    }
    return false;
  }

  /**
   * The body of the scan for one character: a pass over the consonants, then
   * one over the vowels, each resetting the other counter on a match.
   */
  method CountLetter(letter: char, consons: nat, voyels: nat) returns (consonsCounter: nat, voyelsCounter: nat)
    ensures Counters(consonsCounter, voyelsCounter) == Step(Counters(consons, voyels), letter)
  {
    ListsAreTheKinds();
    consonsCounter, voyelsCounter := consons, voyels;
    for j := 0 to |Consonants|
      invariant if letter in Consonants[..j]
                then consonsCounter == consons + 1 && voyelsCounter == 0
                else consonsCounter == consons && voyelsCounter == voyels
    {
      if letter == Consonants[j] {
        consonsCounter := consonsCounter + 1;
        voyelsCounter := 0;
      }
      assert Consonants[..j + 1] == Consonants[..j] + [Consonants[j]];
    }
    assert Consonants[..|Consonants|] == Consonants;
    ghost var middleConsons, middleVoyels := consonsCounter, voyelsCounter;
    for j := 0 to |Vowels|
      invariant if letter in Vowels[..j]
                then voyelsCounter == middleVoyels + 1 && consonsCounter == 0
                else consonsCounter == middleConsons && voyelsCounter == middleVoyels
    {
      if letter == Vowels[j] {
        voyelsCounter := voyelsCounter + 1;
        consonsCounter := 0;
      }
      assert Vowels[..j + 1] == Vowels[..j] + [Vowels[j]];
    }
    assert Vowels[..|Vowels|] == Vowels;
  }

  // ---- isTyposquatting ----

  /** A popular site the link is close to without being equal to it. */
  predicate Near(link: Url, site: Url, limit: int)
    ensures Near(link, site, limit) ==> Chunk(link) != Chunk(site) && limit > 1
  {
    Levenshtein.ZeroIffEqual(Chunk(link), Chunk(site));
    var d := Levenshtein.Distance(Chunk(link), Chunk(site));
    0 < d && d < limit
  }

  /**
   * The loop of the typosquatting check over the popular sites from the
   * first on: both the link and each entry are parsed on every round, and a
   * parse failure ends the scan with `false`.
   */
  function TypoScan(parse: Parser, href: string, sites: seq<string>, limit: int): (r: bool)
    ensures r ==> parse(href).Some? && |sites| > 0 && limit > 1
    decreases |sites|
  {
    if sites == [] then false
    else match (parse(href), parse(sites[0]))
      case (Some(link), Some(site)) => Near(link, site, limit) || TypoScan(parse, href, sites[1..], limit)
      case _ => false
  }

  /**
   * A link whose host (with port) and path are within an edit distance of
   * less than `limit` of some popular site's, but not equal to them.
   */
  method IsTyposquatting(parse: Parser, href: string, popularWebsites: seq<string>, limit: int := 3)
    returns (r: Result<bool, DetectionError>)
    ensures r.Err? <==> limit < 1
    ensures r.Err? ==> r.error == InvalidLimit
    ensures r.Ok? ==> r.value == TypoScan(parse, href, popularWebsites, limit)
  {
    if limit < 1 {
      return Err(InvalidLimit);
    }
    var distance := -1;
    for i := 0 to |popularWebsites|
      invariant TypoScan(parse, href, popularWebsites, limit) == TypoScan(parse, href, popularWebsites[i..], limit)
    {
      var linkUrl := parse(href);
      var popularWebsiteUrl := parse(popularWebsites[i]);
      if linkUrl.None? || popularWebsiteUrl.None? {
        return Ok(false);
      }
      distance := Levenshtein.Distance(Chunk(linkUrl.value), Chunk(popularWebsiteUrl.value));
      if distance > 0 && distance < limit {
        return Ok(true);
      }
      assert popularWebsites[i..][1..] == popularWebsites[i + 1..];
    }
    assert popularWebsites[|popularWebsites|..] == [];
    return Ok(false);
  }

  /** Entry `i` is reached (every entry up to it parses) and is close to the link. */
  predicate FlaggedAt(parse: Parser, link: Url, sites: seq<string>, limit: int, i: int) {
    0 <= i < |sites| && (forall k :: 0 <= k <= i ==> parse(sites[k]).Some?) && Near(link, parse(sites[i]).value, limit)
  }

  /**
   * The scan flags a link exactly when the link parses and some entry, with
   * every entry before it parsing, is near the link.
   */
  lemma {:induction false} TypoScanFindsNearEntry(parse: Parser, href: string, sites: seq<string>, limit: int)
    ensures TypoScan(parse, href, sites, limit)
        <==> parse(href).Some? && exists i :: 0 <= i < |sites| && FlaggedAt(parse, parse(href).value, sites, limit, i)
    decreases |sites|
  {
    if sites != [] && parse(href).Some? && parse(sites[0]).Some? {
      var link := parse(href).value;
      TypoScanFindsNearEntry(parse, href, sites[1..], limit);
      if Near(link, parse(sites[0]).value, limit) {
        assert FlaggedAt(parse, link, sites, limit, 0);
      }
      if TypoScan(parse, href, sites, limit) && !Near(link, parse(sites[0]).value, limit) {
        var i :| 0 <= i < |sites[1..]| && FlaggedAt(parse, link, sites[1..], limit, i);
        assert FlaggedAt(parse, link, sites, limit, i + 1) by {
          forall k | 0 <= k <= i + 1
            ensures parse(sites[k]).Some?
          {
            if k > 0 {
              assert sites[k] == sites[1..][k - 1];
            }
          }
        }
      }
      if exists i :: 0 <= i < |sites| && FlaggedAt(parse, link, sites, limit, i) {
        var i :| 0 <= i < |sites| && FlaggedAt(parse, link, sites, limit, i);
        if i == 0 {
          assert Near(link, parse(sites[0]).value, limit);
        } else {
          assert FlaggedAt(parse, link, sites[1..], limit, i - 1) by {
            forall k | 0 <= k <= i - 1
              ensures parse(sites[1..][k]).Some?
            {
              assert sites[1..][k] == sites[k + 1];
            }
          }
          assert TypoScan(parse, href, sites[1..], limit);
        }
      }
    } else if sites != [] && parse(href).Some? {
      assert parse(sites[0]).None?;
    }
  }

  /** When every popular entry parses, the scan flags a link exactly when it is near one of them. */
  lemma {:induction false} TypoScanOnParsedList(parse: Parser, href: string, sites: seq<string>, limit: int)
    requires forall w :: w in sites ==> parse(w).Some?
    ensures TypoScan(parse, href, sites, limit)
        <==> parse(href).Some? && exists w :: w in sites && Near(parse(href).value, parse(w).value, limit)
  {
    TypoScanFindsNearEntry(parse, href, sites, limit);
    if parse(href).Some? {
      var link := parse(href).value;
      if exists w :: w in sites && Near(link, parse(w).value, limit) {
        var w :| w in sites && Near(link, parse(w).value, limit);
        var i :| 0 <= i < |sites| && sites[i] == w;
        assert FlaggedAt(parse, link, sites, limit, i);
      }
    }
  }

  /**
   * Nearness means: not the same text, an edit distance below `limit`, and so
   * lengths within `limit` of each other. A link equal to a listed site is never
   * flagged by that entry.
   */
  lemma {:induction false} NearMeansDifferentButClose(link: Url, site: Url, limit: int)
    ensures Near(link, site, limit)
        <==> Chunk(link) != Chunk(site) && Levenshtein.Distance(Chunk(link), Chunk(site)) < limit
    ensures Near(link, site, limit) ==> |Chunk(link)| - |Chunk(site)| < limit && |Chunk(site)| - |Chunk(link)| < limit
  {
    Levenshtein.ZeroIffEqual(Chunk(link), Chunk(site));
    Levenshtein.AtLeastLengthDifference(Chunk(link), Chunk(site));
  }

  /** Closeness does not depend on which side is the link and which the popular site. */
  lemma {:induction false} NearSymmetric(link: Url, site: Url, limit: int)
    ensures Near(link, site, limit) == Near(site, link, limit)
  {
    Levenshtein.Symmetric(Chunk(link), Chunk(site));
  }

  // ---- isSuspiciousTLD / getTLD ----

  /**
   * The top-level domain of a hostname: the suffix from its last `.` on. With
   * no `.`, `lastIndexOf` gives -1, `substring` reads that as 0, and the whole
   * hostname comes back.
   */
  function GetTLD(hostname: string): (tld: string)
    ensures |tld| <= |hostname| && tld == hostname[|hostname| - |tld|..]
    ensures '.' in hostname ==> |tld| >= 1 && tld[0] == '.' && '.' !in tld[1..]
    ensures '.' !in hostname ==> tld == hostname
  {
    var n := LastIndexOf(hostname, '.');
    assert n >= 0 ==> hostname[n..][1..] == hostname[n + 1..];
    Substring(hostname, n)
  }

  /** The top-level domain starts at the last `.` of the hostname. */
  lemma TLDFromLastDot(hostname: string, n: nat)
    requires n < |hostname| && hostname[n] == '.'
    requires forall k :: n < k < |hostname| ==> hostname[k] != '.'
    ensures GetTLD(hostname) == hostname[n..]
  {
    assert LastIndexOf(hostname, '.') == n;
  }

  /** A link whose top-level domain is exactly one of the listed entries. */
  method IsSuspiciousTLD(parse: Parser, href: string, suspiciousTld: seq<string>) returns (r: bool)
    ensures r <==> parse(href).Some? && GetTLD(parse(href).value.hostname) in suspiciousTld
  {
    for i := 0 to |suspiciousTld|
      invariant parse(href).Some? ==> forall k :: 0 <= k < i ==> GetTLD(parse(href).value.hostname) != suspiciousTld[k]
    {
      var linkUrl := parse(href);
      if linkUrl.None? {
        return false;
      }
      if GetTLD(linkUrl.value.hostname) == suspiciousTld[i] {
        return true;
      }
    }
    return false;
  }

  /**
   * Entries stored without their leading dot can never match a hostname that
   * has a dot, since the extracted domain always starts with one.
   */
  lemma UndottedEntriesNeverMatch(hostname: string, suspiciousTld: seq<string>)
    requires '.' in hostname
    requires forall e :: e in suspiciousTld ==> e == [] || e[0] != '.'
    ensures GetTLD(hostname) !in suspiciousTld
  {}
}
