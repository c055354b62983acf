# Filter-list syntax changer: the rule converter in Dafny

The core of this repository is a converter for adblock filter lists. It takes
one filter rule at a time towards Adblock Plus syntax. The first of four
branches that applies decides what happens to a rule:

1. A domain-anchored rule (one beginning with `||`) is kept.
2. Otherwise, a rule holding the modifier `$badfilter` has every occurrence of
   it deleted.
3. Otherwise, an element-hiding rule (one beginning with `##` or `#@#`) has
   every `#@#` replaced by `@@##`.
4. Any other rule is kept.

After the branch, whitespace is removed at both ends of the rule. A filter list
is converted rule by rule, in order.

The model has two modules:

- `StringOps` (`string_ops.dfy`) models the Python `str` operations the
  converter uses: `startswith`, the `in` operator, `replace` without a count,
  and `strip` without arguments.
  - `IndexOf` is the leftmost-occurrence search behind `in`; `Contains` is
    `IndexOf` finding something.
  - `ReplaceAll` models `replace` as a left-to-right scan. `Split` and `Join`
    are not used by the converter: they are an independent reference,
    proved equal to `ReplaceAll` as `Join(Split(s, pat), rep)`.
  - `Strip` removes exactly the characters for which `str.isspace` holds
    (`IsSpace`).
- `FilterConverter` (`filter_converter.dfy`) models the converter itself.
  - `ConvertToAbpSyntax` and `ConvertFilterListToAbp` are functions, because
    the source computes both without mutation. `RewriteRule` is the four-way
    branch before the final `strip`.
  - Lemmas state what each branch does to a rule, which rules are left
    unchanged, and why converting twice is not always the same as converting
    once.
  - Sample lemmas work through concrete rules.

Two consequences of the code are easy to miss:

- `str.replace` without a count replaces every non-overlapping occurrence
  from left to right. So every `$badfilter` in a rule is deleted, not only
  the first, and every `#@#` in an element-hiding rule is rewritten
  (`EveryBadFilterSample`, `HidingExceptionRewrittenEverywhere`).
- The `#@#` rewrite only happens when the rule begins with `##` or `#@#`. A
  domain-scoped exception such as `example.com#@#.ad-class` reaches the last
  branch and comes out unchanged (`DomainScopedExceptionKept`,
  `DomainScopedExceptionSample`).

## Model

| member | source | states |
|---|---|---|
| StringOps.FirstCharMismatch | filter_converter.py:8 | characterises `StartsWith` (`startswith`): a string does not start with a prefix when their first characters differ |
| StringOps.MatchesAtTail | filter_converter.py:10 | an occurrence in the tail of a string is an occurrence in the string one place to the right, and back |
| StringOps.IndexOf | filter_converter.py:10 | the search behind `in`: a reported index leaves room for the whole pattern |
| StringOps.IndexOfFinds | filter_converter.py:10 | the search reports an index where the pattern occurs with no occurrence before it, and reports nothing exactly when the pattern occurs nowhere |
| StringOps.MatchesAtStart | filter_converter.py:8-10 | an occurrence at index 0 is the same as `startswith` |
| StringOps.ContainsIff | filter_converter.py:10 | characterises `Contains` (`pat in s`): it holds if and only if the pattern occurs at some index |
| StringOps.ContainsAt | filter_converter.py:10 | an occurrence at any index makes `pat in s` hold |
| StringOps.NotContainsWithout | filter_converter.py:10 | a pattern does not occur in a string that lacks one of its characters |
| StringOps.IndexOfIsFirstMatch | filter_converter.py:10 | an occurrence with none before it is the one the search reports |
| StringOps.MatchInPrefix | filter_converter.py:10 | an occurrence that ends inside a prefix is an occurrence in that prefix |
| StringOps.MatchInSlice | filter_converter.py:10 | an occurrence inside a slice is an occurrence in the whole string, shifted by the slice's start |
| StringOps.Split | filter_converter.py:11 | reference for `replace`: a split has at least one piece |
| StringOps.SplitSingle | filter_converter.py:11 | a split has one piece exactly when the separator does not occur |
| StringOps.SplitPiecesFree | filter_converter.py:11 | no piece of a split holds the separator |
| StringOps.SplitAt | filter_converter.py:11 | a split is the text before the first occurrence followed by the split of the text after it |
| StringOps.ReplaceAllSkips | filter_converter.py:11 | a prefix in which no occurrence begins is copied unchanged by `replace` |
| StringOps.ReplaceAllAtFirst | filter_converter.py:11 | `replace` copies the text before the first occurrence, substitutes that occurrence, and continues after it |
| StringOps.SuffixAtMatch | filter_converter.py:11 | the text from an occurrence on starts with the pattern |
| StringOps.Reassemble | filter_converter.py:11 | the text before an occurrence, the pattern and the text after it give back the string |
| StringOps.JoinCons | filter_converter.py:11 | characterises `Join` on a non-empty tail: one separator goes between a new first piece and the rest |
| StringOps.ReplaceAllIsJoinOfSplit | filter_converter.py:11 | characterises `ReplaceAll` (`replace` without a count): it is the same as joining the split pieces with the replacement |
| StringOps.JoinSplit | filter_converter.py:11 | characterises `Join` against `Split`: joining the split pieces with the separator gives back the string |
| StringOps.ReplaceAllSelf | filter_converter.py:13 | replacing a pattern by itself changes nothing |
| StringOps.ReplaceAllNoMatch | filter_converter.py:13 | a string without the pattern comes out of `replace` unchanged |
| StringOps.ReplaceAllOfPattern | filter_converter.py:11 | the pattern alone is replaced as a whole |
| StringOps.SkipSpace | filter_converter.py:18 | the leading scan of `strip`: it passes only whitespace and stops at the first character that is not whitespace, or at the end |
| StringOps.SkipSpaceBack | filter_converter.py:18 | the trailing scan of `strip`: it passes only whitespace and stops after the last character that is not whitespace, or at the start |
| StringOps.Strip | filter_converter.py:18 | the result neither begins nor ends with whitespace |
| StringOps.StripBounds | filter_converter.py:18 | characterises `Strip` through `IsSpace` (`str.isspace`): `strip` keeps one contiguous slice of its input and drops only whitespace on either side of it |
| StringOps.StripUnique | filter_converter.py:18 | a slice with only whitespace around it and no whitespace at its own ends is what `strip` returns |
| StringOps.StripNoSpaceAtEnds | filter_converter.py:18 | a string that neither begins nor ends with whitespace is unchanged by `strip` |
| StringOps.StripIdempotent | filter_converter.py:18 | stripping twice is the same as stripping once |
| StringOps.StripKeepsPrefix | filter_converter.py:18 | stripping a string that starts with a prefix without whitespace keeps that prefix |
| FilterConverter.ConvertToAbpSyntax | filter_converter.py:3-19 | a converted rule never begins or ends with whitespace |
| FilterConverter.ConvertFilterListToAbp | filter_converter.py:21-26 | the converted list has one rule per input rule, in order, and each is that rule converted |
| FilterConverter.DomainAnchoredRuleOnlyTrimmed | filter_converter.py:8-9 | `RewriteRule`'s first branch: a rule starting with `\|\|` is only trimmed, even when it holds `$badfilter` or `#@#`, and it stays domain-anchored |
| FilterConverter.BadFilterDeletedEverywhere | filter_converter.py:10-11 | `RewriteRule`'s second branch: a rule that is not domain-anchored and holds `$badfilter` loses every occurrence of it; the result is the trimmed concatenation of at least two pieces, none of which holds `$badfilter` |
| FilterConverter.HidingExceptionRewrittenEverywhere | filter_converter.py:12-13 | `RewriteRule`'s third branch: a rule that reaches it has every `#@#` replaced by `@@##`, and a rule starting with `#@#` comes out starting with `@@##` |
| FilterConverter.PlainElementHidingOnlyTrimmed | filter_converter.py:12-13 | `RewriteRule`'s third branch on an element-hiding rule without `#@#`: it is only trimmed |
| FilterConverter.OtherRuleOnlyTrimmed | filter_converter.py:14-15 | `RewriteRule`'s last branch: a rule that none of the first three branches applies to is only trimmed |
| FilterConverter.RuleWithoutMarkersOnlyTrimmed | filter_converter.py:8-18 | a rule holding neither `$badfilter` nor `#@#` is only trimmed, whatever its prefix |
| FilterConverter.OnlyElementHidingLengthens | filter_converter.py:8-18 | every branch except element hiding returns a rule no longer than its input |
| FilterConverter.DeletionShortens | filter_converter.py:11 | deleting every occurrence of a pattern never lengthens a string |
| FilterConverter.BadFilterDeletedAfter | filter_converter.py:10-11 | when the first `$badfilter` follows the text `pre`, `pre` is kept, and that and every later occurrence are deleted |
| FilterConverter.AnchorNotFormed | filter_converter.py:8 | text that is not domain-anchored stays not domain-anchored when `$badfilter` and more text are appended to it |
| FilterConverter.FirstBadFilterAfter | filter_converter.py:10 | when no `$badfilter` begins inside `pre`, the first one in `pre + $badfilter + post` is at the end of `pre` |
| FilterConverter.DeletedFromFirstBadFilter | filter_converter.py:11 | deletion keeps the text before the first `$badfilter` and deletes every occurrence in the text after it |
| FilterConverter.SingleBadFilterDeleted | filter_converter.py:10-18 | a rule with exactly one `$badfilter` converts to the text around it, trimmed |
| FilterConverter.SingleBadFilterAlone | filter_converter.py:10-18 | the rule `$badfilter` on its own converts to the empty rule |
| FilterConverter.NoBadFilterBefore | filter_converter.py:10 | text without `$`, followed by all of `$badfilter` but its last character, holds no `$badfilter` |
| FilterConverter.BadFilterSuffixDeleted | filter_converter.py:10-18 | a rule that is not domain-anchored, has no `$` and no whitespace at its ends, followed by `$badfilter`, converts to that rule without the modifier |
| FilterConverter.HidingExceptionAtStart | filter_converter.py:12-13 | a rule starting with `#@#` and holding no `$badfilter` comes out as `@@##`, then the rest with every `#@#` replaced, trimmed |
| FilterConverter.SingleHidingExceptionAtStart | filter_converter.py:12-18 | a rule whose only `#@#` is at its start comes out as `@@##` and the rest, trimmed |
| FilterConverter.PlainElementHidingKept | filter_converter.py:12-18 | a rule `##selector` whose selector holds neither `$` nor `@` and does not end in whitespace comes out unchanged |
| FilterConverter.DomainScopedExceptionKept | filter_converter.py:12-15 | a rule `domain#@#selector`, where `domain` is non-empty and starts with neither `\|` nor `#`, with no `$` and no whitespace at its ends, comes out unchanged, because its `#@#` is not at the start |
| FilterConverter.ConvertTwiceWithoutMarkers | filter_converter.py:3-19 | converting a second time changes nothing when the first result holds neither `$badfilter` nor `#@#` |
| FilterConverter.BadFilterCanReappear | filter_converter.py:10-11 | converting is not idempotent: `$bad$badfilterfilter` becomes `$badfilter`, and converting again gives the empty rule |
| FilterConverter.JoinedHalves | filter_converter.py:18 | `$bad` and `filter` joined and trimmed give `$badfilter` |
| FilterConverter.HidingExceptionCanReappear | filter_converter.py:12-13 | `#@#@#` becomes `@@##@#`, which still holds `#@#` |
| FilterConverter.RewrittenExceptionKept | filter_converter.py:18 | `@@##@#` is unchanged by trimming and holds `#@#` |
| FilterConverter.BadFilterSample | filter_converter.py:10-18 | `  example.com$badfilter  \n` becomes `example.com` |
| FilterConverter.SampleTrimmed | filter_converter.py:18 | the whitespace around `example.com` is removed |
| FilterConverter.ElementHidingSample | filter_converter.py:12-13 | `##.banner-ad` comes out unchanged |
| FilterConverter.DomainScopedExceptionSample | filter_converter.py:14-15 | `example.com#@#.ad-class` comes out unchanged |
| FilterConverter.EveryBadFilterSample | filter_converter.py:11 | `a$badfilter$badfilter` becomes `a`: both occurrences are deleted |
| FilterConverter.SecondBadFilterDeleted | filter_converter.py:11 | once every `$badfilter` is deleted, `a$badfilter` leaves `a` |
| FilterConverter.ListSample | filter_converter.py:21-26 | the list `["\|\|a.com^", "b.com$badfilter"]` becomes `["\|\|a.com^", "b.com"]` |
| FilterConverter.AnchoredSampleKept | filter_converter.py:8-9 | `\|\|a.com^` comes out unchanged |
| FilterConverter.HostSampleDeleted | filter_converter.py:10-11 | `b.com$badfilter` becomes `b.com` |
| FilterConverter.ConvertListAppend | filter_converter.py:25 | converting a concatenation of lists is the concatenation of their conversions, so each rule is converted independently of its neighbours |

## Left out

- `load_filter_list`, `save_filter_list`, `process_filters` and the `__main__` entry point (lines 28-61) are left out: they read and write files, prompt on the console and print messages.
- A filter list is modelled as the sequence of lines that `readlines` returns. Each line keeps its line break until `strip` removes it.
- The unused `import re` (line 1) has no counterpart.
- Strings are sequences of Unicode scalar values, the values of a Dafny `char`. A Python string may also hold a lone surrogate (U+D800 to U+DFFF); such strings have no counterpart, and `str.isspace` is false for surrogates, so the converter treats them like any other non-whitespace character. `IsSpace` lists the whitespace characters of current Python 3 `str.isspace`; Unicode versions that classify other characters as whitespace are not modelled.
- StringOps.ReplaceAll, StringOps.Split: require a non-empty pattern. Python also accepts an empty one, but the converter only ever passes the non-empty constants `$badfilter` and `#@#`.
