/** The few operations on Python `str` values that the filter-rule converter
    relies on: `startswith`, the `in` operator, `replace` without a count
    argument, and `strip` without arguments.  Strings are sequences of
    characters; a Dafny `char` is a Unicode scalar value. */
module StringOps {

  datatype Option<+T> = None | Some(value: T)

  /** Python's `str.isspace` for one character: the characters `str.strip()`
      removes when it is called without arguments. */
  predicate IsSpace(c: char) {
    || ('\t' <= c <= '\r')                 // tab, line feed, vertical tab, form feed, carriage return
    || ('\U{1C}' <= c <= '\U{1F}')         // file, group, record and unit separators
    || c == ' '
    || c == '\U{85}'                       // next line
    || c == '\U{A0}'                       // no-break space
    || c == '\U{1680}'                     // ogham space mark
    || ('\U{2000}' <= c <= '\U{200A}')     // en quad .. hair space
    || c == '\U{2028}' || c == '\U{2029}'  // line and paragraph separators
    || c == '\U{202F}'                     // narrow no-break space
    || c == '\U{205F}'                     // medium mathematical space
    || c == '\U{3000}'                     // ideographic space
  }

  /** Python's `s.startswith(prefix)`. */
  predicate StartsWith(s: string, prefix: string) {
    |prefix| <= |s| && s[..|prefix|] == prefix
  }

  /** A string does not start with a prefix whose first character it does not start with. */
  lemma FirstCharMismatch(s: string, prefix: string)
    requires |s| > 0 && |prefix| > 0 && s[0] != prefix[0]
    ensures !StartsWith(s, prefix)
  {
    if |prefix| <= |s| {
      assert s[..|prefix|][0] != prefix[0];
    }
  }

  /** `pat` occurs in `s` at index `i`. */
  predicate MatchesAt(s: string, pat: string, i: nat) {
    i + |pat| <= |s| && s[i..i + |pat|] == pat
  }

  /** Occurrences in the tail of `s` are the occurrences in `s` one place to the right. */
  lemma MatchesAtTail(s: string, pat: string)
    requires |s| > 0
    ensures forall i: nat :: MatchesAt(s[1..], pat, i) ==> MatchesAt(s, pat, i + 1)
    ensures forall i: nat :: 1 <= i && MatchesAt(s, pat, i) ==> MatchesAt(s[1..], pat, i - 1)
  {
  }

  /** The leftmost index at which `pat` occurs in `s`, if any: the search behind
      Python's `pat in s`.  A reported index leaves room for the whole pattern. */
  function IndexOf(s: string, pat: string): (r: Option<nat>)
    ensures r.Some? ==> r.value + |pat| <= |s|
    decreases |s|
  {
    if StartsWith(s, pat) then Some(0)
    else if |s| == 0 then None
    else
      match IndexOf(s[1..], pat)
      case None => None
      case Some(k) => Some(k + 1)
  }

  /** IndexOf reports an occurrence with none before it, and reports none
      exactly when `pat` occurs nowhere in `s`. */
  lemma {:induction false} IndexOfFinds(s: string, pat: string)
    ensures IndexOf(s, pat).Some? ==> MatchesAt(s, pat, IndexOf(s, pat).value)
    ensures IndexOf(s, pat).Some? ==> forall j: nat :: j < IndexOf(s, pat).value ==> !MatchesAt(s, pat, j)
    ensures IndexOf(s, pat).None? ==> forall j: nat :: !MatchesAt(s, pat, j)
    decreases |s|
  {
    MatchesAtStart(s, pat);
    if !StartsWith(s, pat) && |s| > 0 {
      IndexOfFinds(s[1..], pat);
      MatchesAtTail(s, pat);
    }
  }

  /** An occurrence at index 0 is a prefix. */
  lemma MatchesAtStart(s: string, pat: string)
    ensures MatchesAt(s, pat, 0) <==> StartsWith(s, pat)
  {
    if |pat| <= |s| {
      assert s[..|pat|] == s[0..|pat|];
    }
  }

  /** Python's `pat in s`. */
  predicate Contains(s: string, pat: string) {
    IndexOf(s, pat).Some?
  }

  /** `pat in s` holds exactly when `pat` occurs in `s` at some index. */
  lemma ContainsIff(s: string, pat: string)
    ensures Contains(s, pat) <==> exists i: nat :: MatchesAt(s, pat, i)
  {
    IndexOfFinds(s, pat);
    if Contains(s, pat) {
      assert MatchesAt(s, pat, IndexOf(s, pat).value);
    }
  }

  /** An occurrence anywhere means `pat in s`. */
  lemma ContainsAt(s: string, pat: string, i: nat)
    requires MatchesAt(s, pat, i)
    ensures Contains(s, pat)
  {
    IndexOfFinds(s, pat);
  }

  /** `pat` does not occur in a string that lacks one of its characters. */
  lemma NotContainsWithout(s: string, pat: string, k: nat)
    requires k < |pat| && pat[k] !in s
    ensures !Contains(s, pat)
  {
    IndexOfFinds(s, pat);
  }

  /** An occurrence with none before it is the one the search reports. */
  lemma IndexOfIsFirstMatch(s: string, pat: string, i: nat)
    requires MatchesAt(s, pat, i)
    requires forall j: nat :: j < i ==> !MatchesAt(s, pat, j)
    ensures IndexOf(s, pat) == Some(i)
  {
    IndexOfFinds(s, pat);
  }

  /** An occurrence that ends by index `hi` is an occurrence in the prefix `s[..hi]`. */
  lemma MatchInPrefix(s: string, pat: string, i: nat, hi: nat)
    requires MatchesAt(s, pat, i) && i + |pat| <= hi <= |s|
    ensures MatchesAt(s[..hi], pat, i)
  {
    assert s[..hi][i..i + |pat|] == s[i..i + |pat|];
  }

  /** An occurrence inside a slice of `s` is an occurrence in `s`. */
  lemma MatchInSlice(s: string, pat: string, lo: nat, hi: nat, i: nat)
    requires lo <= hi <= |s|
    requires MatchesAt(s[lo..hi], pat, i)
    ensures MatchesAt(s, pat, lo + i)
  {
    forall k | 0 <= k < |pat| ensures s[lo + i..lo + i + |pat|][k] == pat[k] {
      assert s[lo..hi][i..i + |pat|][k] == pat[k];
    }
  }

  /** Python's `sep.join(parts)`. */
  function Join(parts: seq<string>, sep: string): string
  {
    if |parts| == 0 then ""
    else if |parts| == 1 then parts[0]
    else parts[0] + sep + Join(parts[1..], sep)
  }

  /** Python's `s.split(sep)` for a non-empty separator: the pieces between the
      occurrences of `sep`, found one after the other from the left. */
  function Split(s: string, sep: string): (parts: seq<string>)
    requires |sep| > 0
    ensures |parts| >= 1
    decreases |s|
  {
    match IndexOf(s, sep)
    case None => [s]
    case Some(i) => [s[..i]] + Split(s[i + |sep|..], sep)
  }

  /** A split has a single piece exactly when the separator does not occur. */
  lemma SplitSingle(s: string, sep: string)
    requires |sep| > 0
    ensures |Split(s, sep)| == 1 <==> !Contains(s, sep)
  {
    match IndexOf(s, sep)
    case None =>
    case Some(i) => SplitAt(s, sep, i);
  }

  /** No piece of a split holds the separator. */
  lemma {:induction false} SplitPiecesFree(s: string, sep: string)
    requires |sep| > 0
    ensures forall k :: 0 <= k < |Split(s, sep)| ==> !Contains(Split(s, sep)[k], sep)
    decreases |s|
  {
    IndexOfFinds(s, sep);
    match IndexOf(s, sep)
    case None =>
    case Some(i) =>
      var head := s[..i];
      var rest := s[i + |sep|..];
      IndexOfFinds(head, sep);
      if Contains(head, sep) {
        MatchInSlice(s, sep, 0, i, IndexOf(head, sep).value);
      }
      SplitPiecesFree(rest, sep);
      SplitAt(s, sep, i);
  }

  /** Python's `s.replace(pat, rep)` without a count argument, for a non-empty
      `pat`: scanning from the left, every occurrence of `pat` that does not
      overlap an occurrence already replaced is replaced by `rep`. */
  function ReplaceAll(s: string, pat: string, rep: string): string
    requires |pat| > 0
    decreases |s|
  {
    if StartsWith(s, pat) then rep + ReplaceAll(s[|pat|..], pat, rep)
    else if |s| == 0 then ""
    else [s[0]] + ReplaceAll(s[1..], pat, rep)
  }

  /** A prefix of `s` in which no occurrence of `pat` begins is copied unchanged. */
  lemma {:induction false} ReplaceAllSkips(s: string, pat: string, rep: string, i: nat)
    requires |pat| > 0 && i <= |s|
    requires forall j: nat :: j < i ==> !MatchesAt(s, pat, j)
    ensures ReplaceAll(s, pat, rep) == s[..i] + ReplaceAll(s[i..], pat, rep)
    decreases i
  {
    if i > 0 {
      assert !MatchesAt(s, pat, 0);
      MatchesAtTail(s, pat);
      ReplaceAllSkips(s[1..], pat, rep, i - 1);
      assert s[1..][i - 1..] == s[i..];
      assert [s[0]] + s[1..][..i - 1] == s[..i];
    }
  }

  /** The text before the first occurrence is copied, that occurrence is replaced,
      and the replacement goes on after it. */
  lemma ReplaceAllAtFirst(s: string, pat: string, rep: string, i: nat)
    requires |pat| > 0 && MatchesAt(s, pat, i)
    requires forall j: nat :: j < i ==> !MatchesAt(s, pat, j)
    ensures ReplaceAll(s, pat, rep) == s[..i] + rep + ReplaceAll(s[i + |pat|..], pat, rep)
  {
    ReplaceAllSkips(s, pat, rep, i);
    SuffixAtMatch(s, pat, i);
  }

  /** The suffix of `s` from an occurrence starts with it, and dropping it leaves what follows. */
  lemma SuffixAtMatch(s: string, pat: string, i: nat)
    requires MatchesAt(s, pat, i)
    ensures StartsWith(s[i..], pat) && s[i..][|pat|..] == s[i + |pat|..]
  {
    assert s[i..][..|pat|] == s[i..i + |pat|];
  }

  /** Splitting at the first occurrence gives the text before it, then the
      pieces of the text after it. */
  lemma SplitAt(s: string, sep: string, i: nat)
    requires |sep| > 0 && IndexOf(s, sep) == Some(i)
    ensures Split(s, sep) == [s[..i]] + Split(s[i + |sep|..], sep)
  {
  }

  /** The text before an occurrence, the occurrence and the text after it give back the string. */
  lemma Reassemble(s: string, pat: string, i: nat)
    requires MatchesAt(s, pat, i)
    ensures s == s[..i] + pat + s[i + |pat|..]
  {
    assert s == s[..i] + s[i..i + |pat|] + s[i + |pat|..];
  }

  /** Joining a non-empty list of pieces after a new first piece puts one separator between them. */
  lemma JoinCons(head: string, tail: seq<string>, sep: string)
    requires |tail| >= 1
    ensures Join([head] + tail, sep) == head + sep + Join(tail, sep)
  {
    assert ([head] + tail)[1..] == tail;
  }

  /** Replacing every occurrence of `pat` by `rep` is joining, with `rep`, the
      pieces between the occurrences: `s.replace(pat, rep) == rep.join(s.split(pat))`.
      Since no piece contains `pat` (SplitPiecesFree), no occurrence is left behind. */
  lemma {:induction false} ReplaceAllIsJoinOfSplit(s: string, pat: string, rep: string)
    requires |pat| > 0
    ensures ReplaceAll(s, pat, rep) == Join(Split(s, pat), rep)
    decreases |s|
  {
    IndexOfFinds(s, pat);
    match IndexOf(s, pat)
    case None =>
      ReplaceAllSkips(s, pat, rep, |s|);
      assert s[..|s|] == s;
    case Some(i) =>
      var rest := s[i + |pat|..];
      ReplaceAllAtFirst(s, pat, rep, i);
      ReplaceAllIsJoinOfSplit(rest, pat, rep);
      SplitAt(s, pat, i);
      JoinCons(s[..i], Split(rest, pat), rep);
  }

  /** Joining the pieces of a split with the separator gives back the string. */
  lemma {:induction false} JoinSplit(s: string, sep: string)
    requires |sep| > 0
    ensures Join(Split(s, sep), sep) == s
    decreases |s|
  {
    IndexOfFinds(s, sep);
    match IndexOf(s, sep)
    case None =>
    case Some(i) =>
      var rest := s[i + |sep|..];
      JoinSplit(rest, sep);
      SplitAt(s, sep, i);
      Reassemble(s, sep, i);
      JoinCons(s[..i], Split(rest, sep), sep);
  }

  /** Replacing a pattern by itself changes nothing. */
  lemma ReplaceAllSelf(s: string, pat: string)
    requires |pat| > 0
    ensures ReplaceAll(s, pat, pat) == s
  {
    ReplaceAllIsJoinOfSplit(s, pat, pat);
    JoinSplit(s, pat);
  }

  /** A string in which `pat` does not occur is returned unchanged by the replacement. */
  lemma ReplaceAllNoMatch(s: string, pat: string, rep: string)
    requires |pat| > 0 && !Contains(s, pat)
    ensures ReplaceAll(s, pat, rep) == s
  {
    ReplaceAllIsJoinOfSplit(s, pat, rep);
  }

  /** The pattern itself is replaced as a whole. */
  lemma ReplaceAllOfPattern(pat: string, rep: string)
    requires |pat| > 0
    ensures ReplaceAll(pat, pat, rep) == rep
  {
    assert pat[..|pat|] == pat;
    assert pat[|pat|..] == [];
  }

  /** The index of the first character of `s` from index `i` on that is not
      whitespace, or `|s|` when there is none. */
  function SkipSpace(s: string, i: nat): (k: nat)
    requires i <= |s|
    ensures i <= k <= |s|
    ensures forall m :: i <= m < k ==> IsSpace(s[m])
    ensures k < |s| ==> !IsSpace(s[k])
    decreases |s| - i
  {
    if i < |s| && IsSpace(s[i]) then SkipSpace(s, i + 1) else i
  }

  /** The index just past the last character of `s` before index `j` that is
      not whitespace, or 0 when there is none. */
  function SkipSpaceBack(s: string, j: nat): (k: nat)
    requires j <= |s|
    ensures k <= j
    ensures forall m :: k <= m < j ==> IsSpace(s[m])
    ensures 0 < k ==> !IsSpace(s[k - 1])
    decreases j
  {
    if 0 < j && IsSpace(s[j - 1]) then SkipSpaceBack(s, j - 1) else j
  }

  /** Neither the first nor the last character is whitespace. */
  predicate Trimmed(s: string) {
    s == [] || (!IsSpace(s[0]) && !IsSpace(s[|s| - 1]))
  }

  /** Python's `s.strip()`: the text from the first character that is not
      whitespace to the last one, or the empty string when every character is
      whitespace. */
  function Strip(s: string): (r: string)
    ensures Trimmed(r)
  {
    var i := SkipSpace(s, 0);
    var j := SkipSpaceBack(s, |s|);
    if i < j then s[i..j] else ""
  }

  /** Strip keeps one contiguous slice of its input and drops only whitespace around it. */
  lemma StripBounds(s: string) returns (i: nat, j: nat)
    ensures i <= j <= |s| && Strip(s) == s[i..j]
    ensures forall k :: 0 <= k < i ==> IsSpace(s[k])
    ensures forall k :: j <= k < |s| ==> IsSpace(s[k])
  {
    i := SkipSpace(s, 0);
    j := SkipSpaceBack(s, |s|);
    if j < i {
      j := i;
    }
  }

  /** That slice is the only one that neither begins nor ends with whitespace
      and has only whitespace around it: Strip is fully determined by these facts. */
  lemma StripUnique(s: string, i: nat, j: nat)
    requires i <= j <= |s|
    requires forall k :: 0 <= k < i ==> IsSpace(s[k])
    requires forall k :: j <= k < |s| ==> IsSpace(s[k])
    requires i < j ==> !IsSpace(s[i]) && !IsSpace(s[j - 1])
    ensures Strip(s) == s[i..j]
  {
    var a := SkipSpace(s, 0);
    var b := SkipSpaceBack(s, |s|);
    if i < j {
      assert a == i;
      assert b == j;
    } else {
      assert b <= a;
    }
  }

  /** A string that neither begins nor ends with whitespace is its own strip. */
  lemma StripNoSpaceAtEnds(s: string)
    requires Trimmed(s)
    ensures Strip(s) == s
  {
    StripUnique(s, 0, |s|);
    assert s[0..|s|] == s;
  }

  /** Stripping twice is stripping once. */
  lemma StripIdempotent(s: string)
    ensures Strip(Strip(s)) == Strip(s)
  {
    StripNoSpaceAtEnds(Strip(s));
  }

  /** A prefix made of non-whitespace characters survives stripping. */
  lemma StripKeepsPrefix(s: string, p: string)
    requires StartsWith(s, p)
    requires forall k :: 0 <= k < |p| ==> !IsSpace(p[k])
    ensures StartsWith(Strip(s), p)
  {
    if |p| > 0 {
      assert s[0] == p[0] && s[|p| - 1] == p[|p| - 1];
      var a := SkipSpace(s, 0);
      var b := SkipSpaceBack(s, |s|);
      assert a == 0;
      assert |p| <= b;
      assert s[0..b][..|p|] == s[..|p|];
    }
  }
}
