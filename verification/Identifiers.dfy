/** Slugs and fresh identifiers of the generator's catalog. */
module Identifiers {
  import opened Numerals
  import opened PythonText
  import opened Wrappers

  predicate IsWordChar(c: char) {
    'a' <= c <= 'z' || '0' <= c <= '9'
  }

  // ---------------------------------------------------------------- slugs

  function DropSeparators(s: string): (r: string)
    ensures |r| <= |s|
  {
    if s == "" || IsWordChar(s[0]) then s else DropSeparators(s[1..])
  }

  /** Replace every run of characters outside `[a-z0-9]` by one underscore. */
  function Collapse(s: string): string
    decreases |s|
  {
    if s == "" then ""
    else if IsWordChar(s[0]) then [s[0]] + Collapse(s[1..])
    else "_" + Collapse(DropSeparators(s[1..]))
  }

  /** `str.strip("_")`. */
  function StripUnderscores(s: string): string {
    if s == "" then s
    else if s[0] == '_' then StripUnderscores(s[1..])
    else if s[|s| - 1] == '_' then StripUnderscores(s[..|s| - 1])
    else s
  }

  function IdentifierSlug(value: string): string {
    StripUnderscores(Collapse(Lower(value)))
  }

  /** Word characters and underscores, with no two underscores in a row. */
  ghost predicate IsSpaced(s: string) {
    && (forall i :: 0 <= i < |s| ==> IsWordChar(s[i]) || s[i] == '_')
    && (forall i :: 0 <= i < |s| - 1 ==> s[i] != '_' || s[i + 1] != '_')
  }

  /** Non-empty words of `[a-z0-9]` joined by single underscores; possibly no word at all. */
  ghost predicate IsSlug(s: string) {
    IsSpaced(s) && (s != "" ==> s[0] != '_' && s[|s| - 1] != '_')
  }

  lemma {:induction false} DropSeparatorsMeaning(s: string)
    ensures DropSeparators(s) != "" ==> IsWordChar(DropSeparators(s)[0])
  {
    if s == "" || IsWordChar(s[0]) {
    } else {
      DropSeparatorsMeaning(s[1..]);
    }
  }

  lemma {:induction false} CollapseIsSpaced(s: string)
    ensures IsSpaced(Collapse(s))
    ensures s != "" && IsWordChar(s[0]) ==> Collapse(s) != "" && Collapse(s)[0] == s[0]
    ensures s == "" ==> Collapse(s) == ""
    decreases |s|
  {
    if s == "" {
    } else {
      if IsWordChar(s[0]) {
        CollapseIsSpaced(s[1..]);
      } else {
        DropSeparatorsMeaning(s[1..]);
        CollapseIsSpaced(DropSeparators(s[1..]));
      }
    }
  }

  lemma {:induction false} StripKeepsSpacing(s: string)
    requires IsSpaced(s)
    ensures IsSlug(StripUnderscores(s))
  {
    if s == "" {
    } else {
      if s[0] == '_' {
        assert forall i :: 0 <= i < |s[1..]| ==> s[1..][i] == s[i + 1];
        StripKeepsSpacing(s[1..]);
      } else if s[|s| - 1] == '_' {
        StripKeepsSpacing(s[..|s| - 1]);
      }
    }
  }

  lemma {:induction false} CollapseFixesSpaced(s: string)
    requires IsSpaced(s)
    ensures Collapse(s) == s
    decreases |s|
  {
    if s == "" {
    } else {
      var rest := s[1..];
      assert forall i :: 0 <= i < |rest| ==> rest[i] == s[i + 1];
      CollapseFixesSpaced(rest);
      if !IsWordChar(s[0]) {
        assert DropSeparators(rest) == rest;
      }
      assert s == [s[0]] + rest;
    }
  }

  /** Slugging always yields a slug, and leaves exactly the slugs as they are. */
  lemma SlugMeaning(value: string)
    ensures IsSlug(IdentifierSlug(value))
    ensures IdentifierSlug(value) == value <==> IsSlug(value)
  {
    CollapseIsSpaced(Lower(value));
    StripKeepsSpacing(Collapse(Lower(value)));
    if IsSlug(value) {
      LowerIsIdentity(value);
      CollapseFixesSpaced(value);
      assert StripUnderscores(value) == value;
    }
  }

  /** Slugging twice is slugging once. */
  lemma SlugIsIdempotent(value: string)
    ensures IdentifierSlug(IdentifierSlug(value)) == IdentifierSlug(value)
  {
    SlugMeaning(value);
    SlugMeaning(IdentifierSlug(value));
  }

  // ---------------------------------------------------------------- a slug is the words of its text

  function RunLength(s: string): (n: nat)
    ensures n <= |s| && (forall i :: 0 <= i < n ==> IsWordChar(s[i])) && (n < |s| ==> !IsWordChar(s[n]))
    ensures s != "" && IsWordChar(s[0]) ==> n > 0
  {
    if s == "" || !IsWordChar(s[0]) then 0 else 1 + RunLength(s[1..])
  }

  /** The longest runs of word characters, in order. */
  function Words(s: string): seq<string>
    decreases |s|
  {
    if s == "" then []
    else if !IsWordChar(s[0]) then Words(s[1..])
    else [s[..RunLength(s)]] + Words(s[RunLength(s)..])
  }

  function Underscored(words: seq<string>): string {
    if words == [] then "" else if |words| == 1 then words[0] else words[0] + "_" + Underscored(words[1..])
  }

  lemma {:induction false} CollapseRun(s: string, n: nat)
    requires n <= |s| && forall i :: 0 <= i < n ==> IsWordChar(s[i])
    ensures Collapse(s) == s[..n] + Collapse(s[n..])
  {
    if n == 0 {
      assert s[0..] == s;
    } else {
      CollapseRun(s[1..], n - 1);
      assert s[1..][n - 1..] == s[n..] && s[..n] == [s[0]] + s[1..][..n - 1];
    }
  }

  /** Dropping separators loses no word and keeps the end of the text. */
  lemma {:induction false} DropKeepsWords(s: string)
    ensures Words(DropSeparators(s)) == Words(s)
    ensures var d := DropSeparators(s); d != "" ==> IsWordChar(d[0]) && d[|d| - 1] == s[|s| - 1]
    ensures DropSeparators(s) == "" && s != "" ==> !IsWordChar(s[|s| - 1])
  {
    if s == "" || IsWordChar(s[0]) {
    } else {
      DropKeepsWords(s[1..]);
    }
  }

  /** What follows the first word of a text and the separators behind it. */
  function AfterFirstWord(s: string): string
    requires RunLength(s) < |s|
  {
    DropSeparators(s[RunLength(s)..][1..])
  }

  lemma FirstWordCollapses(s: string)
    requires s != "" && IsWordChar(s[0]) && RunLength(s) < |s|
    ensures Collapse(s) == s[..RunLength(s)] + ("_" + Collapse(AfterFirstWord(s)))
  {
    CollapseRun(s, RunLength(s));
  }

  lemma FirstWordIsFirst(s: string)
    requires s != "" && IsWordChar(s[0]) && RunLength(s) < |s|
    ensures Words(s) == [s[..RunLength(s)]] + Words(AfterFirstWord(s))
  {
    DropKeepsWords(s[RunLength(s)..][1..]);
  }

  lemma FirstWordEnds(s: string)
    requires s != "" && IsWordChar(s[0]) && RunLength(s) < |s|
    ensures var after := AfterFirstWord(s);
            && |after| < |s|
            && if after == "" then !IsWordChar(s[|s| - 1])
               else IsWordChar(after[0]) && after[|after| - 1] == s[|s| - 1]
  {
    DropKeepsWords(s[RunLength(s)..][1..]);
  }

  /** Nothing, or an underscore where the text ends in a separator. */
  function EndMark(s: string): string {
    if s == "" || IsWordChar(s[|s| - 1]) then "" else "_"
  }

  predicate IsWordLike(u: string) {
    u != "" && IsWordChar(u[0]) && IsWordChar(u[|u| - 1])
  }

  /** Collapsed text that starts with a word is its words, and an underscore for separators at the end. */
  lemma {:induction false} CollapseIsWords(s: string)
    requires s != "" && IsWordChar(s[0])
    ensures Collapse(s) == Underscored(Words(s)) + EndMark(s)
    ensures IsWordLike(Underscored(Words(s)))
    decreases |s|
  {
    var n := RunLength(s);
    if n == |s| {
      CollapseRun(s, n);
      assert s[n..] == "" && s[..n] == s && Words(s) == [s];
    } else {
      var word, after := s[..n], AfterFirstWord(s);
      FirstWordCollapses(s);
      FirstWordIsFirst(s);
      FirstWordEnds(s);
      if after == "" {
        assert Words(s) == [word];
      } else {
        CollapseIsWords(after);
        MoreWords(word, Words(after), EndMark(s));
      }
    }
  }

  lemma MoreWords(word: string, words: seq<string>, end: string)
    requires word != "" && IsWordChar(word[0]) && IsWordLike(Underscored(words))
    ensures word + ("_" + (Underscored(words) + end)) == Underscored([word] + words) + end
    ensures IsWordLike(Underscored([word] + words))
  {
    WordsThenMore(word, words);
  }

  lemma WordsThenMore(word: string, words: seq<string>)
    requires words != []
    ensures Underscored([word] + words) == word + "_" + Underscored(words)
  {
    assert ([word] + words)[1..] == words;
  }

  lemma StripEnd(u: string)
    requires u != "" && u[0] != '_' && u[|u| - 1] != '_'
    ensures StripUnderscores(u) == u && StripUnderscores(u + "_") == u
    ensures StripUnderscores("_" + u) == u && StripUnderscores("_" + (u + "_")) == u
  {
    assert (u + "_")[..|u|] == u;
    assert ("_" + u)[1..] == u && ("_" + (u + "_"))[1..] == u + "_";
  }

  /** A slug is the words of the lower-cased text, joined by single underscores. */
  lemma SlugIsWords(value: string)
    ensures IdentifierSlug(value) == Underscored(Words(Lower(value)))
  {
    var s := Lower(value);
    DropKeepsWords(s);
    var d := DropSeparators(s);
    if d == "" {
      if s != "" {
        DropAll(s);
        assert "_"[1..] == "";
      }
    } else {
      CollapseIsWords(d);
      StripEnd(Underscored(Words(d)));
      var u := Underscored(Words(d));
      assert u + "" == u;
      assert Collapse(d) == u || Collapse(d) == u + "_";
      if s != d {
        assert Collapse(s) == "_" + Collapse(d);
      }
    }
  }

  lemma DropAll(s: string)
    requires s != "" && DropSeparators(s) == ""
    ensures Collapse(s) == "_"
  {
    assert DropSeparators(s[1..]) == "";
  }

  // ---------------------------------------------------------------- joining and truncating

  /** The non-empty slugs of the parts, joined by underscores. */
  function JoinedSlugs(parts: seq<string>): string {
    if parts == [] then ""
    else
      var init, last := JoinedSlugs(parts[..|parts| - 1]), IdentifierSlug(parts[|parts| - 1]);
      if last == "" then init else if init == "" then last else init + "_" + last
  }

  function AllWords(parts: seq<string>): seq<string> {
    if parts == [] then [] else AllWords(parts[..|parts| - 1]) + Words(Lower(parts[|parts| - 1]))
  }

  lemma {:induction false} WordsAreNotEmpty(s: string)
    ensures forall i :: 0 <= i < |Words(s)| ==> Words(s)[i] != ""
    decreases |s|
  {
    if s == "" {
    } else if !IsWordChar(s[0]) {
      WordsAreNotEmpty(s[1..]);
    } else {
      WordsAreNotEmpty(s[RunLength(s)..]);
    }
  }

  lemma UnderscoredHead(words: seq<string>, more: seq<string>)
    requires |words| > 1
    ensures Underscored(words + more) == words[0] + "_" + Underscored(words[1..] + more)
  {
    assert words + more == [words[0]] + (words[1..] + more);
    WordsThenMore(words[0], words[1..] + more);
  }

  lemma {:induction false} UnderscoredBoth(a: seq<string>, b: seq<string>)
    requires a != [] && b != []
    ensures Underscored(a + b) == Underscored(a) + ("_" + Underscored(b))
  {
    if |a| == 1 {
      assert a + b == [a[0]] + b;
      WordsThenMore(a[0], b);
    } else {
      UnderscoredBoth(a[1..], b);
      UnderscoredHead(a, b);
      ConcatAssociates(a[0] + "_", Underscored(a[1..]), "_" + Underscored(b));
    }
  }

  lemma UnderscoredConcat(a: seq<string>, b: seq<string>)
    ensures b == [] ==> Underscored(a + b) == Underscored(a)
    ensures a == [] ==> Underscored(a + b) == Underscored(b)
    ensures a != [] && b != [] ==> Underscored(a + b) == Underscored(a) + "_" + Underscored(b)
  {
    if a != [] && b != [] {
      UnderscoredBoth(a, b);
      ConcatAssociates(Underscored(a), "_", Underscored(b));
    } else {
      assert b == [] ==> a + b == a;
      assert a == [] ==> a + b == b;
    }
  }

  lemma {:induction false} UnderscoredIsEmpty(words: seq<string>)
    requires forall i :: 0 <= i < |words| ==> words[i] != ""
    ensures Underscored(words) == "" <==> words == []
  {
  }

  lemma {:induction false} AllWordsAreNotEmpty(parts: seq<string>)
    ensures forall i :: 0 <= i < |AllWords(parts)| ==> AllWords(parts)[i] != ""
  {
    if parts == [] {
    } else {
      AllWordsAreNotEmpty(parts[..|parts| - 1]);
      WordsAreNotEmpty(Lower(parts[|parts| - 1]));
    }
  }

  /** Joined slugs are all words of all parts, joined by single underscores. */
  lemma {:induction false} JoinedIsWords(parts: seq<string>)
    ensures JoinedSlugs(parts) == Underscored(AllWords(parts))
  {
    if parts == [] {
    } else {
      var init, last := parts[..|parts| - 1], parts[|parts| - 1];
      JoinedIsWords(init);
      SlugIsWords(last);
      AllWordsAreNotEmpty(init);
      WordsAreNotEmpty(Lower(last));
      UnderscoredIsEmpty(AllWords(init));
      UnderscoredIsEmpty(Words(Lower(last)));
      UnderscoredConcat(AllWords(init), Words(Lower(last)));
    }
  }

  lemma JoinTwoSlugs(a: string, b: string)
    requires IsSlug(a) && IsSlug(b) && a != "" && b != ""
    ensures IsSlug(a + "_" + b)
  {
    var s, n := a + "_" + b, |a|;
    forall i | 0 <= i < |s| - 1 ensures s[i] != '_' || s[i + 1] != '_' {
      if i > n {
        assert s[i] == b[i - n - 1] && s[i + 1] == b[i - n];
      }
    }
  }

  lemma {:induction false} JoinedSlugsIsSlug(parts: seq<string>)
    ensures IsSlug(JoinedSlugs(parts))
  {
    if parts == [] {
    } else {
      var init, last := JoinedSlugs(parts[..|parts| - 1]), IdentifierSlug(parts[|parts| - 1]);
      JoinedSlugsIsSlug(parts[..|parts| - 1]);
      SlugMeaning(parts[|parts| - 1]);
      if init != "" && last != "" {
        JoinTwoSlugs(init, last);
      }
    }
  }

  /** The name before any suffix: truncated slug, or `item` when nothing is left of it. */
  function BaseName(prefix: string, parts: seq<string>, maxSlugLength: nat): string {
    var joined := JoinedSlugs(parts);
    var slug := StripUnderscores(joined[..Min(maxSlugLength, |joined|)]);
    prefix + "_" + if slug == "" then "item" else slug
  }

  /** The candidates in the order they are tried: the bare name, then suffixes from 2. */
  function Candidate(name: string, k: nat): string {
    if k <= 1 then name else name + "_" + Digits(k, Decimal)
  }

  lemma {:induction false} DigitsAreSlug(n: nat)
    ensures IsSlug(Digits(n, Decimal)) && Digits(n, Decimal) != ""
    ensures forall i :: 0 <= i < |Digits(n, Decimal)| ==> IsWordChar(Digits(n, Decimal)[i])
  {
    if Quotient(Decimal, n) == 0 {
    } else {
      DigitsAreSlug(Quotient(Decimal, n));
    }
  }

  lemma BaseNameIsSlug(prefix: string, parts: seq<string>, maxSlugLength: nat)
    requires IsSlug(prefix) && prefix != ""
    ensures IsSlug(BaseName(prefix, parts, maxSlugLength)) && prefix + "_" <= BaseName(prefix, parts, maxSlugLength)
  {
    JoinedSlugsIsSlug(parts);
    var joined := JoinedSlugs(parts);
    var cut := joined[..Min(maxSlugLength, |joined|)];
    StripKeepsSpacing(cut);
    JoinTwoSlugs(prefix, if StripUnderscores(cut) == "" then "item" else StripUnderscores(cut));
  }

  /**
    The name without suffix: the prefix, an underscore, and as much of the joined slugs as fits,
    less an underscore at the cut; or `item` where nothing fits.
  */
  lemma BaseNameMeaning(prefix: string, parts: seq<string>, maxSlugLength: nat) returns (slug: string)
    ensures BaseName(prefix, parts, maxSlugLength) == prefix + "_" + slug
    ensures var joined, room := JoinedSlugs(parts), Min(maxSlugLength, |JoinedSlugs(parts)|);
            if room == 0 then slug == "item"
            else
              && slug != "" && slug <= joined
              && (|slug| == room || (|slug| == room - 1 && joined[room - 1] == '_'))
              && slug[|slug| - 1] != '_'
  {
    var joined := JoinedSlugs(parts);
    var room := Min(maxSlugLength, |joined|);
    var cut := joined[..room];
    JoinedSlugsIsSlug(parts);
    slug := if StripUnderscores(cut) == "" then "item" else StripUnderscores(cut);
    if room > 0 {
      assert cut[0] == joined[0] != '_';
      if cut[room - 1] == '_' {
        assert room > 1 && joined[room - 2] != '_';
        assert cut == cut[..room - 1] + "_";
        StripEnd(cut[..room - 1]);
      } else {
        StripEnd(cut);
      }
    }
  }

  /** The suffix of candidate number `k` is the number `k` itself, from 2 on. */
  lemma CandidateNumber(name: string, k: nat) returns (digits: string)
    requires k >= 2
    ensures Candidate(name, 1) == name
    ensures Candidate(name, k) == name + "_" + digits && Value(digits, Decimal) == k
    ensures digits != "" && digits[0] != '0'
  {
    digits := Digits(k, Decimal);
    ValueOfDigits(0, k, Decimal);
    assert Zeros(0) + digits == digits;
    NoLeadingZero(k);
  }

  lemma {:induction false} NoLeadingZero(n: nat)
    requires n > 0
    ensures Digits(n, Decimal) != "" && Digits(n, Decimal)[0] != '0'
  {
    if Quotient(Decimal, n) == 0 {
    } else {
      NoLeadingZero(Quotient(Decimal, n));
    }
  }

  /** Every candidate keeps the shape: the prefix and words, joined by single underscores. */
  lemma CandidateIsSlug(prefix: string, parts: seq<string>, maxSlugLength: nat, k: nat)
    requires IsSlug(prefix) && prefix != ""
    ensures IsSlug(Candidate(BaseName(prefix, parts, maxSlugLength), k))
    ensures prefix + "_" <= Candidate(BaseName(prefix, parts, maxSlugLength), k)
  {
    BaseNameIsSlug(prefix, parts, maxSlugLength);
    DigitsAreSlug(k);
    JoinTwoSlugs(BaseName(prefix, parts, maxSlugLength), Digits(k, Decimal));
  }

  // ---------------------------------------------------------------- the search for a fresh name

  lemma CandidatesDiffer(name: string, i: nat, j: nat)
    requires 1 <= i < j
    ensures Candidate(name, i) != Candidate(name, j)
  {
    var b := Candidate(name, j);
    assert b[|name| + 1..] == Digits(j, Decimal);
    if i > 1 {
      var a := Candidate(name, i);
      assert a[|name| + 1..] == Digits(i, Decimal);
      if a == b {
        DigitsAreInjective(i, j, Decimal);
      }
    }
  }

  ghost function Tried(name: string, below: nat): set<string> {
    set k | 1 <= k < below :: Candidate(name, k)
  }

  lemma {:induction false} TriedCount(name: string, below: nat)
    requires below >= 1
    ensures |Tried(name, below)| == below - 1
  {
    if below == 1 {
      assert Tried(name, below) == {};
    } else {
      TriedCount(name, below - 1);
      var last := Candidate(name, below - 1);
      assert Tried(name, below) == Tried(name, below - 1) + {last};
      forall k | 1 <= k < below - 1 ensures Candidate(name, k) != last {
        CandidatesDiffer(name, k, below - 1);
      }
    }
  }

  lemma {:induction false} SubsetIsNoLarger<T>(a: set<T>, b: set<T>)
    requires a <= b
    ensures |a| <= |b|
  {
    if a == {} {
    } else {
      var x :| x in a;
      SubsetIsNoLarger(a - {x}, b - {x});
    }
  }

  /** Pigeonhole: the candidates tried in vain cannot outnumber the existing names. */
  lemma TriedFit(name: string, below: nat, existing: set<string>)
    requires below >= 1 && forall k :: 1 <= k < below ==> Candidate(name, k) in existing
    ensures below - 1 <= |existing|
  {
    TriedCount(name, below);
    SubsetIsNoLarger(Tried(name, below), existing);
  }

  /** The set of names is shared between calls and grows by the name returned. */
  class NameRegistry {
    var existing: set<string>

    constructor ()
      ensures existing == {}
    {
      existing := {};
    }

    /** The first candidate that is free, found within one try more than there are names. */
    method UniqueIdentifier(prefix: string, parts: seq<string>, maxSlugLength: nat)
      returns (id: string, ghost tries: nat)
      modifies this
      ensures id !in old(existing) && existing == old(existing) + {id}
      ensures 1 <= tries <= |old(existing)| + 1
      ensures id == Candidate(BaseName(prefix, parts, maxSlugLength), tries)
      ensures forall k :: 1 <= k < tries ==> Candidate(BaseName(prefix, parts, maxSlugLength), k) in old(existing)
    {
      var name := BaseName(prefix, parts, maxSlugLength);
      id := name;
      var suffix := 2;
      TriedFit(name, 1, existing);
      while id in existing
        invariant suffix >= 2 && existing == old(existing)
        invariant id == Candidate(name, suffix - 1)
        invariant forall k :: 1 <= k < suffix - 1 ==> Candidate(name, k) in existing
        invariant suffix - 2 <= |existing|
        decreases |existing| + 2 - suffix
      {
        TriedFit(name, suffix, existing);
        id := name + "_" + Digits(suffix, Decimal);
        suffix := suffix + 1;
      }
      tries := suffix - 1;
      existing := existing + {id};
    }

    /** A pool of names, one per request: pairwise distinct whatever the requests. */
    method BuildPool(prefix: string, requests: seq<seq<string>>, maxSlugLength: nat) returns (ids: seq<string>)
      modifies this
      ensures |ids| == |requests|
      ensures forall i, j :: 0 <= i < j < |ids| ==> ids[i] != ids[j]
      ensures forall i :: 0 <= i < |ids| ==> ids[i] !in old(existing) && ids[i] in existing
      ensures IsSlug(prefix) && prefix != "" ==> forall i :: 0 <= i < |ids| ==> IsSlug(ids[i])
    {
      ids := [];
      for n := 0 to |requests|
        invariant |ids| == n && old(existing) <= existing
        invariant forall i :: 0 <= i < n ==> ids[i] in existing && ids[i] !in old(existing)
        invariant forall i, j :: 0 <= i < j < n ==> ids[i] != ids[j]
        invariant IsSlug(prefix) && prefix != "" ==> forall i :: 0 <= i < n ==> IsSlug(ids[i])
      {
        var id, tries := UniqueIdentifier(prefix, requests[n], maxSlugLength);
        if IsSlug(prefix) && prefix != "" {
          CandidateIsSlug(prefix, requests[n], maxSlugLength, tries);
        }
        ids := ids + [id];
      }
    }
  }
}
