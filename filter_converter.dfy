/** The rule rewriter of the filter-list syntax changer: one adblock filter rule
    is rewritten towards Adblock Plus syntax, and a filter list is rewritten
    rule by rule, in order. */
module FilterConverter {
  import opened StringOps

  /** Prefix of a domain-anchored rule. */
  const DomainAnchor: string := "||"
  /** Modifier that is deleted from rules. */
  const BadFilter: string := "$badfilter"
  /** Prefix of an element-hiding rule. */
  const ElementHiding: string := "##"
  /** Element-hiding exception marker as it appears in the input. */
  const HidingException: string := "#@#"
  /** What the converter writes in place of every `HidingException`. */
  const AbpHidingException: string := "@@##"

  /** The rule reaches the element-hiding branch: the other branches before it did not apply. */
  predicate ReachesElementHiding(rule: string) {
    && !StartsWith(rule, DomainAnchor)
    && !Contains(rule, BadFilter)
    && (StartsWith(rule, ElementHiding) || StartsWith(rule, HidingException))
  }

  /** The rewrite chosen by the first of the four branches that applies, before trimming. */
  function RewriteRule(filterRule: string): string
  {
    if StartsWith(filterRule, DomainAnchor) then
      filterRule
    else if Contains(filterRule, BadFilter) then
      ReplaceAll(filterRule, BadFilter, "")
    else if StartsWith(filterRule, ElementHiding) || StartsWith(filterRule, HidingException) then
      ReplaceAll(filterRule, HidingException, AbpHidingException)
    else
      filterRule
  }

  /** One rule: rewritten by the first branch that applies, then with whitespace
      removed at both ends, so the result never begins or ends with whitespace. */
  function ConvertToAbpSyntax(filterRule: string): (abpRule: string)
    ensures Trimmed(abpRule)
  {
    Strip(RewriteRule(filterRule))
  }

  /** The list conversion: the rules converted one by one, in order. */
  function ConvertFilterListToAbp(filterList: seq<string>): (abpFilterList: seq<string>)
    ensures |abpFilterList| == |filterList|
    ensures forall i :: 0 <= i < |filterList| ==> abpFilterList[i] == ConvertToAbpSyntax(filterList[i])
  {
    if filterList == [] then [] else [ConvertToAbpSyntax(filterList[0])] + ConvertFilterListToAbp(filterList[1..])
  }

  // ---------------------------------------------------------------------------
  // The four branches, in priority order

  /** A domain-anchored rule is only trimmed, even when it also holds
      `$badfilter` or `#@#`, and it stays domain-anchored. */
  lemma DomainAnchoredRuleOnlyTrimmed(rule: string)
    requires StartsWith(rule, DomainAnchor)
    ensures ConvertToAbpSyntax(rule) == Strip(rule)
    ensures StartsWith(ConvertToAbpSyntax(rule), DomainAnchor)
  {
    StripKeepsPrefix(rule, DomainAnchor);
  }

  /** A rule that is not domain-anchored and holds `$badfilter` loses every
      occurrence of it: the result is the trimmed concatenation of the pieces
      between the occurrences, none of which holds `$badfilter`.  The
      element-hiding prefixes play no part. */
  lemma BadFilterDeletedEverywhere(rule: string)
    requires !StartsWith(rule, DomainAnchor) && Contains(rule, BadFilter)
    ensures ConvertToAbpSyntax(rule) == Strip(ReplaceAll(rule, BadFilter, ""))
    ensures |Split(rule, BadFilter)| >= 2
    ensures ConvertToAbpSyntax(rule) == Strip(Join(Split(rule, BadFilter), ""))
    ensures forall k :: 0 <= k < |Split(rule, BadFilter)| ==> !Contains(Split(rule, BadFilter)[k], BadFilter)
  {
    ReplaceAllIsJoinOfSplit(rule, BadFilter, "");
    SplitSingle(rule, BadFilter);
    SplitPiecesFree(rule, BadFilter);
  }

  /** A rule that reaches the element-hiding branch has every occurrence of
      `#@#` replaced by `@@##`; one that begins with `#@#` comes out beginning
      with `@@##`. */
  lemma HidingExceptionRewrittenEverywhere(rule: string)
    requires ReachesElementHiding(rule)
    ensures ConvertToAbpSyntax(rule) == Strip(ReplaceAll(rule, HidingException, AbpHidingException))
    ensures ConvertToAbpSyntax(rule) == Strip(Join(Split(rule, HidingException), AbpHidingException))
    ensures StartsWith(rule, HidingException) ==> StartsWith(ConvertToAbpSyntax(rule), AbpHidingException)
  {
    ReplaceAllIsJoinOfSplit(rule, HidingException, AbpHidingException);
    if StartsWith(rule, HidingException) {
      var rewritten := ReplaceAll(rule, HidingException, AbpHidingException);
      assert rewritten == AbpHidingException + ReplaceAll(rule[3..], HidingException, AbpHidingException);
      assert rewritten[..4] == AbpHidingException;
      StripKeepsPrefix(rewritten, AbpHidingException);
    }
  }

  /** An element-hiding rule that holds no `#@#` goes through the replacement
      unchanged, so it is only trimmed. */
  lemma PlainElementHidingOnlyTrimmed(rule: string)
    requires ReachesElementHiding(rule) && !Contains(rule, HidingException)
    ensures ConvertToAbpSyntax(rule) == Strip(rule)
  {
    ReplaceAllNoMatch(rule, HidingException, AbpHidingException);
  }

  /** Every other rule is only trimmed; this includes domain-scoped exceptions
      such as `example.com#@#.ad`, whose `#@#` is not at the start. */
  lemma OtherRuleOnlyTrimmed(rule: string)
    requires !StartsWith(rule, DomainAnchor) && !Contains(rule, BadFilter)
    requires !StartsWith(rule, ElementHiding) && !StartsWith(rule, HidingException)
    ensures ConvertToAbpSyntax(rule) == Strip(rule)
  {
  }

  /** A rule that holds neither marker is only trimmed, whatever its prefix. */
  lemma RuleWithoutMarkersOnlyTrimmed(rule: string)
    requires !Contains(rule, BadFilter) && !Contains(rule, HidingException)
    ensures ConvertToAbpSyntax(rule) == Strip(rule)
  {
    ReplaceAllNoMatch(rule, HidingException, AbpHidingException);
  }

  /** Only the element-hiding branch can lengthen a rule: deleting `$badfilter`
      and trimming never do. */
  lemma OnlyElementHidingLengthens(rule: string)
    requires !ReachesElementHiding(rule)
    ensures |ConvertToAbpSyntax(rule)| <= |rule|
  {
    DeletionShortens(rule, BadFilter);
  }

  /** Deleting every occurrence of a pattern never lengthens a string. */
  lemma {:induction false} DeletionShortens(s: string, pat: string)
    requires |pat| > 0
    ensures |ReplaceAll(s, pat, "")| <= |s|
    decreases |s|
  {
    if StartsWith(s, pat) {
      DeletionShortens(s[|pat|..], pat);
    } else if |s| > 0 {
      DeletionShortens(s[1..], pat);
    }
  }

  // ---------------------------------------------------------------------------
  // Rules of particular shapes

  /** A rule whose first `$badfilter` follows the text `pre`: `pre` is kept as it
      is, that occurrence is deleted, and so is every later one. */
  lemma BadFilterDeletedAfter(pre: string, post: string)
    requires !StartsWith(pre, DomainAnchor)
    requires !Contains(pre + BadFilter[..9], BadFilter)
    ensures ConvertToAbpSyntax(pre + BadFilter + post) == Strip(pre + ReplaceAll(post, BadFilter, ""))
  {
    AnchorNotFormed(pre, post);
    FirstBadFilterAfter(pre, post);
    DeletedFromFirstBadFilter(pre, post);
    BadFilterDeletedEverywhere(pre + BadFilter + post);
  }

  /** Appending `$badfilter` to a text that is not domain-anchored does not make it so. */
  lemma AnchorNotFormed(pre: string, post: string)
    requires !StartsWith(pre, DomainAnchor)
    ensures !StartsWith(pre + BadFilter + post, DomainAnchor)
  {
    var rule := pre + BadFilter + post;
    if |pre| >= 2 {
      assert rule[..2] == pre[..2];
    } else {
      assert rule[|pre|] == '$';
    }
  }

  /** When no `$badfilter` begins inside `pre`, the first one follows it. */
  lemma FirstBadFilterAfter(pre: string, post: string)
    requires !Contains(pre + BadFilter[..9], BadFilter)
    ensures IndexOf(pre + BadFilter + post, BadFilter) == Some(|pre|)
  {
    var rule := pre + BadFilter + post;
    var n := |pre|;
    assert MatchesAt(rule, BadFilter, n) by {
      assert rule[n..n + 10] == BadFilter;
    }
    forall j: nat | j < n ensures !MatchesAt(rule, BadFilter, j) {
      if MatchesAt(rule, BadFilter, j) {
        MatchInPrefix(rule, BadFilter, j, n + 9);
        assert rule[..n + 9] == pre + BadFilter[..9];
        ContainsAt(pre + BadFilter[..9], BadFilter, j);
      }
    }
    IndexOfIsFirstMatch(rule, BadFilter, n);
  }

  /** Deleting from a rule whose first `$badfilter` follows `pre`. */
  lemma DeletedFromFirstBadFilter(pre: string, post: string)
    requires IndexOf(pre + BadFilter + post, BadFilter) == Some(|pre|)
    ensures ReplaceAll(pre + BadFilter + post, BadFilter, "") == pre + ReplaceAll(post, BadFilter, "")
  {
    var rule := pre + BadFilter + post;
    var n := |pre|;
    assert |BadFilter| == 10;
    IndexOfFinds(rule, BadFilter);
    ReplaceAllAtFirst(rule, BadFilter, "", n);
    var r := ReplaceAll(rule[n + 10..], BadFilter, "");
    assert ReplaceAll(rule, BadFilter, "") == rule[..n] + "" + r;
    assert rule[..n] + "" == pre;
    assert rule[n + 10..] == post;
  }

  /** An element-hiding exception at the start of a rule becomes `@@##`, and
      every later `#@#` is replaced too. */
  lemma HidingExceptionAtStart(post: string)
    requires !Contains(HidingException + post, BadFilter)
    ensures ConvertToAbpSyntax(HidingException + post)
         == Strip(AbpHidingException + ReplaceAll(post, HidingException, AbpHidingException))
  {
    var rule := HidingException + post;
    assert rule[..3] == HidingException;
    FirstCharMismatch(rule, DomainAnchor);
    assert ReplaceAll(rule, HidingException, AbpHidingException)
        == AbpHidingException + ReplaceAll(rule[3..], HidingException, AbpHidingException);
    assert rule[3..] == post;
  }

  /** A domain-scoped element-hiding exception `domain#@#selector` is returned
      as it is, provided it holds no `$badfilter` and has no whitespace at its ends:
      its `#@#` is not at the start of the rule. */
  lemma DomainScopedExceptionKept(domain: string, selector: string)
    requires |domain| > 0 && domain[0] != '|' && domain[0] != '#'
    requires '$' !in domain && '$' !in selector
    requires Trimmed(domain + HidingException + selector)
    ensures ConvertToAbpSyntax(domain + HidingException + selector) == domain + HidingException + selector
  {
    var rule := domain + HidingException + selector;
    assert rule[0] == domain[0];
    FirstCharMismatch(rule, DomainAnchor);
    FirstCharMismatch(rule, ElementHiding);
    FirstCharMismatch(rule, HidingException);
    assert '$' !in rule;
    NotContainsWithout(rule, BadFilter, 0);
    OtherRuleOnlyTrimmed(rule);
    StripNoSpaceAtEnds(rule);
  }

  // ---------------------------------------------------------------------------
  // Converting twice

  /** Converting a second time changes nothing when the first result holds
      neither `$badfilter` nor `#@#`. */
  lemma ConvertTwiceWithoutMarkers(rule: string)
    requires !Contains(ConvertToAbpSyntax(rule), BadFilter)
    requires !Contains(ConvertToAbpSyntax(rule), HidingException)
    ensures ConvertToAbpSyntax(ConvertToAbpSyntax(rule)) == ConvertToAbpSyntax(rule)
  {
    var r := ConvertToAbpSyntax(rule);
    RuleWithoutMarkersOnlyTrimmed(r);
    StripNoSpaceAtEnds(r);
  }

  /** Deleting `$badfilter` can join the text around it into a new
      `$badfilter`, which only a second conversion deletes:
      `$bad$badfilterfilter` becomes `$badfilter`, and that becomes empty. */
  lemma BadFilterCanReappear(pre: string, post: string)
    requires pre == "$bad" && post == "filter"
    ensures ConvertToAbpSyntax(pre + BadFilter + post) == BadFilter
    ensures ConvertToAbpSyntax(ConvertToAbpSyntax(pre + BadFilter + post)) == ""
  {
    FirstCharMismatch(pre, DomainAnchor);
    NotContainsWithout(pre + BadFilter[..9], BadFilter, 9);
    NotContainsWithout(post, BadFilter, 0);
    SingleBadFilterDeleted(pre, post);
    JoinedHalves(pre, post);
    SingleBadFilterAlone();
  }

  /** The two halves around the deleted `$badfilter` join into a new one. */
  lemma JoinedHalves(pre: string, post: string)
    requires pre == "$bad" && post == "filter"
    ensures Strip(pre + post) == BadFilter
  {
    assert pre + post == BadFilter;
    StripNoSpaceAtEnds(BadFilter);
  }

  /** A rule that is only `$badfilter` converts to the empty rule. */
  lemma SingleBadFilterAlone()
    ensures ConvertToAbpSyntax(BadFilter) == ""
  {
    FirstCharMismatch(BadFilter, DomainAnchor);
    assert BadFilter[0..10] == BadFilter;
    ContainsAt(BadFilter, BadFilter, 0);
    BadFilterDeletedEverywhere(BadFilter);
    ReplaceAllOfPattern(BadFilter, "");
  }

  /** A rule holding exactly one `$badfilter` is what surrounds it, trimmed. */
  lemma SingleBadFilterDeleted(pre: string, post: string)
    requires !StartsWith(pre, DomainAnchor)
    requires !Contains(pre + BadFilter[..9], BadFilter)
    requires !Contains(post, BadFilter)
    ensures ConvertToAbpSyntax(pre + BadFilter + post) == Strip(pre + post)
  {
    BadFilterDeletedAfter(pre, post);
    ReplaceAllNoMatch(post, BadFilter, "");
  }

  /** No `$badfilter` begins before the end of a text without `$`, even with
      the start of one appended. */
  lemma NoBadFilterBefore(pre: string)
    requires '$' !in pre
    ensures !Contains(pre + BadFilter[..9], BadFilter)
  {
    var t := pre + BadFilter[..9];
    ContainsIff(t, BadFilter);
    forall j: nat ensures !MatchesAt(t, BadFilter, j) {
      if j < |pre| {
        assert t[j] == pre[j] != '$';
        assert t[j..j + 10][0] != BadFilter[0];
      }
    }
  }

  /** A rule that is `$badfilter` appended to text without `$`, not domain-anchored
      and with no whitespace at its ends, converts to that text. */
  lemma BadFilterSuffixDeleted(pre: string)
    requires !StartsWith(pre, DomainAnchor) && '$' !in pre && Trimmed(pre)
    ensures ConvertToAbpSyntax(pre + BadFilter) == pre
  {
    NoBadFilterBefore(pre);
    NotContainsWithout("", BadFilter, 0);
    SingleBadFilterDeleted(pre, "");
    assert pre + BadFilter + "" == pre + BadFilter;
    assert pre + "" == pre;
    StripNoSpaceAtEnds(pre);
  }

  /** Replacing `#@#` by `@@##` can create a new `#@#`, which the converted
      rule still holds: `#@#@#` becomes `@@##@#`. */
  lemma HidingExceptionCanReappear(post: string)
    requires post == "@#"
    ensures ConvertToAbpSyntax(HidingException + post) == AbpHidingException + post
    ensures Contains(ConvertToAbpSyntax(HidingException + post), HidingException)
  {
    NotContainsWithout(HidingException + post, BadFilter, 0);
    ContainsIff(post, HidingException);
    SingleHidingExceptionAtStart(post);
    RewrittenExceptionKept(post);
  }

  /** A rule that begins with the only `#@#` it holds comes out as `@@##` and the rest, trimmed. */
  lemma SingleHidingExceptionAtStart(post: string)
    requires !Contains(HidingException + post, BadFilter)
    requires !Contains(post, HidingException)
    ensures ConvertToAbpSyntax(HidingException + post) == Strip(AbpHidingException + post)
  {
    HidingExceptionAtStart(post);
    ReplaceAllNoMatch(post, HidingException, AbpHidingException);
  }

  /** `@@##@#` needs no trimming and holds `#@#` at index 3. */
  lemma RewrittenExceptionKept(post: string)
    requires post == "@#"
    ensures Strip(AbpHidingException + post) == AbpHidingException + post
    ensures Contains(AbpHidingException + post, HidingException)
  {
    var r := AbpHidingException + post;
    StripNoSpaceAtEnds(r);
    assert r[3..6] == HidingException;
    ContainsAt(r, HidingException, 3);
  }

  /** An element-hiding rule `##selector` whose selector holds neither `$` nor `@`
      and does not end in whitespace is returned as it is. */
  lemma PlainElementHidingKept(selector: string)
    requires '$' !in selector && '@' !in selector
    requires selector == [] || !IsSpace(selector[|selector| - 1])
    ensures ConvertToAbpSyntax(ElementHiding + selector) == ElementHiding + selector
  {
    var rule := ElementHiding + selector;
    FirstCharMismatch(rule, DomainAnchor);
    assert '$' !in rule && '@' !in rule;
    NotContainsWithout(rule, BadFilter, 0);
    NotContainsWithout(rule, HidingException, 1);
    assert rule[..2] == ElementHiding;
    PlainElementHidingOnlyTrimmed(rule);
    StripNoSpaceAtEnds(rule);
  }

  // ---------------------------------------------------------------------------
  // Sample rules
  //
  // Each sample takes the literal parts of its rule as parameters fixed by a
  // `requires`, so that inside the proof they are opaque names the verifier
  // does not expand character by character, and the general lemmas above do
  // the work.

  /** `  example.com$badfilter  \n` becomes `example.com`: the modifier and the
      whitespace around the rule go. */
  lemma BadFilterSample(pre: string, post: string)
    requires pre == "  example.com" && post == "  \n"
    ensures ConvertToAbpSyntax(pre + BadFilter + post) == "example.com"
  {
    FirstCharMismatch(pre, DomainAnchor);
    NotContainsWithout(pre + BadFilter[..9], BadFilter, 9);
    NotContainsWithout(post, BadFilter, 0);
    SingleBadFilterDeleted(pre, post);
    SampleTrimmed(pre, post);
  }

  /** The whitespace around `example.com` goes. */
  lemma SampleTrimmed(pre: string, post: string)
    requires pre == "  example.com" && post == "  \n"
    ensures Strip(pre + post) == "example.com"
  {
    StripUnique(pre + post, 2, 13);
    assert (pre + post)[2..13] == "example.com";
  }

  /** `##.banner-ad` holds no `#@#`, so it is returned as it is. */
  lemma ElementHidingSample(selector: string)
    requires selector == ".banner-ad"
    ensures ConvertToAbpSyntax(ElementHiding + selector) == ElementHiding + selector
  {
    PlainElementHidingKept(selector);
  }

  /** `example.com#@#.ad-class` keeps its `#@#`. */
  lemma DomainScopedExceptionSample(domain: string, selector: string)
    requires domain == "example.com" && selector == ".ad-class"
    ensures ConvertToAbpSyntax(domain + HidingException + selector) == domain + HidingException + selector
  {
    assert '$' !in domain && '$' !in selector;
    DomainScopedExceptionKept(domain, selector);
  }

  /** `a$badfilter$badfilter` loses both occurrences, not only the first. */
  lemma EveryBadFilterSample(pre: string)
    requires pre == "a"
    ensures ConvertToAbpSyntax(pre + BadFilter + BadFilter) == pre
  {
    FirstCharMismatch(pre, DomainAnchor);
    NotContainsWithout(pre + BadFilter[..9], BadFilter, 9);
    BadFilterDeletedAfter(pre, BadFilter);
    SecondBadFilterDeleted(pre);
  }

  /** What is left of `a$badfilter` once every `$badfilter` is deleted is `a`. */
  lemma SecondBadFilterDeleted(pre: string)
    requires pre == "a"
    ensures Strip(pre + ReplaceAll(BadFilter, BadFilter, "")) == pre
  {
    ReplaceAllOfPattern(BadFilter, "");
    assert pre + "" == pre;
    StripNoSpaceAtEnds(pre);
  }

  /** A two-rule list is converted rule by rule, in order:
      `||a.com^` is kept and `b.com$badfilter` becomes `b.com`. */
  lemma ListSample(anchored: string, host: string)
    requires anchored == "||a.com^" && host == "b.com"
    ensures ConvertFilterListToAbp([anchored, host + BadFilter]) == [anchored, host]
  {
    AnchoredSampleKept(anchored);
    HostSampleDeleted(host);
  }

  /** `||a.com^` is kept. */
  lemma AnchoredSampleKept(anchored: string)
    requires anchored == "||a.com^"
    ensures ConvertToAbpSyntax(anchored) == anchored
  {
    assert anchored[..2] == DomainAnchor;
    DomainAnchoredRuleOnlyTrimmed(anchored);
    StripNoSpaceAtEnds(anchored);
  }

  /** `b.com$badfilter` becomes `b.com`. */
  lemma HostSampleDeleted(host: string)
    requires host == "b.com"
    ensures ConvertToAbpSyntax(host + BadFilter) == host
  {
    FirstCharMismatch(host, DomainAnchor);
    assert '$' !in host;
    BadFilterSuffixDeleted(host);
  }

  // ---------------------------------------------------------------------------
  // The list conversion

  /** Converting a concatenation of lists is concatenating their conversions:
      each rule is converted on its own, whatever its neighbours. */
  lemma {:induction false} ConvertListAppend(a: seq<string>, b: seq<string>)
    ensures ConvertFilterListToAbp(a + b) == ConvertFilterListToAbp(a) + ConvertFilterListToAbp(b)
  {
    var l := ConvertFilterListToAbp(a + b);
    var r := ConvertFilterListToAbp(a) + ConvertFilterListToAbp(b);
    assert |l| == |r|;
    forall i | 0 <= i < |l| ensures l[i] == r[i] {
      if i < |a| {
        assert (a + b)[i] == a[i];
      } else {
        assert (a + b)[i] == b[i - |a|];
      }
    }
  }
}
