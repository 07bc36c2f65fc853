/**
 * Event slugs. Inputs are taken after Unicode folding and conversion to lower
 * case, both of which leave slugs themselves unchanged.
 */
module Slugs {
  import opened Common

  const MAX_LENGTH := 80

  predicate Alphanumeric(c: char) {
    'a' <= c <= 'z' || '0' <= c <= '9'
  }

  /** A slug keeps the ten digits and the twenty-six letters from 'a' on. */
  lemma KeptCharacters(c: char)
    ensures Alphanumeric(c) <==> IsDigit(c) || 'a' as int <= c as int < 'a' as int + 26
  {
  }

  /** replace(/[^a-z0-9]+/g, "-"); `inRun` says whether the run was already replaced. */
  function Hyphenate(s: string, inRun: bool): string {
    if s == "" then ""
    else if Alphanumeric(s[0]) then [s[0]] + Hyphenate(s[1..], false)
    else (if inRun then "" else "-") + Hyphenate(s[1..], true)
  }

  function TrimStart(s: string): string {
    if s != "" && s[0] == '-' then TrimStart(s[1..]) else s
  }

  function TrimEnd(s: string): string {
    if s != "" && s[|s| - 1] == '-' then TrimEnd(s[..|s| - 1]) else s
  }

  function Slice(s: string, n: nat): string {
    if |s| <= n then s else s[..n]
  }

  /** createEventSlug, from the folded title on. */
  function CreateEventSlug(title: string): string {
    var slug := TrimEnd(Slice(TrimEnd(TrimStart(Hyphenate(title, false))), MAX_LENGTH));
    if slug == "" then "event" else slug
  }

  /** createPublicEventSlug. */
  function CreatePublicEventSlug(organization: string, event: string): string {
    organization + "--" + event
  }

  // ------------------------------------------------------------------------
  // The grammar of slugs
  // ------------------------------------------------------------------------

  predicate DoubleAt(s: string, i: int)
    requires 0 <= i < |s| - 1
  {
    s[i] == '-' && s[i + 1] == '-'
  }

  /** Alphanumeric characters and single hyphens. */
  predicate Single(s: string) {
    && (forall i :: 0 <= i < |s| ==> Alphanumeric(s[i]) || s[i] == '-')
    && (forall i :: 0 <= i < |s| - 1 ==> !DoubleAt(s, i))
  }

  /** ^[a-z0-9]+(?:-[a-z0-9]+)*$ */
  predicate IsSlug(s: string) {
    Single(s) && s != "" && s[0] != '-' && s[|s| - 1] != '-'
  }

  lemma {:induction false} HyphenateIsSingle(s: string, inRun: bool)
    ensures var h := Hyphenate(s, inRun); Single(h) && (inRun && h != "" ==> h[0] != '-')
  {
    if s != "" {
      var rest := Hyphenate(s[1..], !Alphanumeric(s[0]));
      HyphenateIsSingle(s[1..], !Alphanumeric(s[0]));
      var h := Hyphenate(s, inRun);
      if h != rest {
        assert h[1..] == rest;
        forall i | 0 <= i < |h| - 1 ensures !DoubleAt(h, i) {
          if i > 0 { assert !DoubleAt(rest, i - 1); }
        }
      }
    }
  }

  lemma {:induction false} TrimStartKeeps(s: string)
    requires Single(s)
    ensures var t := TrimStart(s); Single(t) && (t != "" ==> t[0] != '-')
  {
    if s != "" && s[0] == '-' {
      forall i | 0 <= i < |s[1..]| - 1 ensures !DoubleAt(s[1..], i) { assert !DoubleAt(s, i + 1); }
      TrimStartKeeps(s[1..]);
    }
  }

  lemma {:induction false} TrimEndKeeps(s: string)
    requires Single(s)
    ensures var t := TrimEnd(s);
      Single(t) && t <= s && (t != "" ==> t[|t| - 1] != '-')
  {
    if s != "" && s[|s| - 1] == '-' {
      PrefixIsSingle(s, |s| - 1);
      TrimEndKeeps(s[..|s| - 1]);
    }
  }

  lemma PrefixIsSingle(s: string, n: nat)
    requires Single(s) && n <= |s|
    ensures Single(s[..n])
  {
    forall i | 0 <= i < |s[..n]| - 1 ensures !DoubleAt(s[..n], i) { assert !DoubleAt(s, i); }
  }

  /** For every title the result is a non-empty slug of at most 80 characters. */
  lemma EventSlugIsSlug(title: string)
    ensures var slug := CreateEventSlug(title); IsSlug(slug) && |slug| <= MAX_LENGTH
  {
    hide Hyphenate, TrimStart, TrimEnd;
    var h := Hyphenate(title, false);
    HyphenateIsSingle(title, false);
    TrimStartKeeps(h);
    var t := TrimStart(h);
    TrimEndKeeps(t);
    var u := TrimEnd(t);
    if |u| > MAX_LENGTH { PrefixIsSingle(u, MAX_LENGTH); }
    TrimEndKeeps(Slice(u, MAX_LENGTH));
  }

  lemma {:induction false} HyphenateSlug(s: string)
    requires Single(s)
    ensures Hyphenate(s, false) == s
    ensures s != "" && s[0] != '-' ==> Hyphenate(s, true) == s
    decreases |s|
  {
    if s != "" {
      var rest := s[1..];
      assert s == [s[0]] + rest;
      forall i | 0 <= i < |rest| - 1 ensures !DoubleAt(rest, i) { assert !DoubleAt(s, i + 1); }
      HyphenateSlug(rest);
      if s[0] == '-' && rest != "" { assert !DoubleAt(s, 0); }
    }
  }

  /** A slug of at most 80 characters is its own slug, so slugging twice changes nothing more. */
  lemma SlugOfSlug(s: string)
    requires IsSlug(s) && |s| <= MAX_LENGTH
    ensures CreateEventSlug(s) == s
  {
    HyphenateSlug(s);
  }

  lemma Idempotent(title: string)
    ensures CreateEventSlug(CreateEventSlug(title)) == CreateEventSlug(title)
  {
    EventSlugIsSlug(title);
    SlugOfSlug(CreateEventSlug(title));
  }

  // ------------------------------------------------------------------------
  // What a slug keeps of its title
  // ------------------------------------------------------------------------

  /** The maximal runs of alphanumeric characters. */
  function Words(s: string, word: string): seq<string> {
    if s == "" then (if word == "" then [] else [word])
    else if Alphanumeric(s[0]) then Words(s[1..], word + [s[0]])
    else (if word == "" then [] else [word]) + Words(s[1..], "")
  }

  /** The words, each with a hyphen before it. */
  function Hyphenated(words: seq<string>): string {
    if words == [] then "" else "-" + words[0] + Hyphenated(words[1..])
  }

  function JoinWords(words: seq<string>): string {
    if words == [] then "" else words[0] + Hyphenated(words[1..])
  }

  lemma {:induction false} TrimEndAppend(a: string, b: string)
    requires TrimEnd(b) != ""
    ensures TrimEnd(a + b) == a + TrimEnd(b)
    decreases |b|
  {
    if b[|b| - 1] == '-' {
      assert (a + b)[..|a + b| - 1] == a + b[..|b| - 1];
      TrimEndAppend(a, b[..|b| - 1]);
    }
  }

  lemma {:induction false} TrimEndDrops(a: string, b: string)
    requires TrimEnd(b) == ""
    ensures TrimEnd(a + b) == TrimEnd(a)
    decreases |b|
  {
    if b == "" {
      assert a + b == a;
    } else {
      assert (a + b)[..|a + b| - 1] == a + b[..|b| - 1];
      TrimEndDrops(a, b[..|b| - 1]);
    }
  }

  lemma TrimEndOfWord(word: string)
    requires word != "" ==> word[|word| - 1] != '-'
    ensures TrimEnd(word) == word
  {
  }

  /** What follows an unfinished word, hyphenated and trimmed, is the rest of the words. */
  lemma {:induction false} HyphenateIsWords(s: string, word: string)
    requires forall i :: 0 <= i < |word| ==> Alphanumeric(word[i])
    ensures word != "" ==> TrimEnd(word + Hyphenate(s, false)) == JoinWords(Words(s, word))
    ensures TrimEnd("-" + Hyphenate(s, true)) == Hyphenated(Words(s, ""))
    decreases |s|
  {
    if s == "" {
      TrimEndOfWord(word);
      assert word + "" == word && "-" + "" == "-" && "-"[..0] == "";
      if word != "" { assert [word][1..] == [] && word + "" == word; }
    } else if Alphanumeric(s[0]) {
      HyphenateLetter(s, word);
    } else {
      HyphenateOther(s, word);
    }
  }

  /** An alphanumeric character extends the word. */
  lemma {:induction false} HyphenateLetter(s: string, word: string)
    requires s != "" && Alphanumeric(s[0]) && forall i :: 0 <= i < |word| ==> Alphanumeric(word[i])
    ensures TrimEnd(word + Hyphenate(s, false)) == JoinWords(Words(s, word))
    ensures TrimEnd("-" + Hyphenate(s, true)) == Hyphenated(Words(s, ""))
    decreases |s|, 0
  {
    hide TrimEnd, JoinWords, Hyphenated;
    var c, rest := s[0], s[1..];
    HyphenateIsWords(rest, word + [c]);
    HyphenateIsWords(rest, [c]);
    assert word + ([c] + Hyphenate(rest, false)) == (word + [c]) + Hyphenate(rest, false);
    assert "" + [c] == [c];
    AfterHyphen(rest, c);
  }

  lemma AfterHyphen(rest: string, c: char)
    requires TrimEnd([c] + Hyphenate(rest, false)) == JoinWords(Words(rest, [c]))
    ensures TrimEnd("-" + ([c] + Hyphenate(rest, false))) == Hyphenated(Words(rest, [c]))
  {
    hide TrimEnd, Hyphenate, Words;
    WordsNonEmpty(rest, [c]);
    TrimEndAppend("-", [c] + Hyphenate(rest, false));
    var words := Words(rest, [c]);
    assert "-" + JoinWords(words) == Hyphenated(words);
  }

  /** Any other character ends the word, if there is one, and starts or continues a run. */
  lemma {:induction false} HyphenateOther(s: string, word: string)
    requires s != "" && !Alphanumeric(s[0]) && forall i :: 0 <= i < |word| ==> Alphanumeric(word[i])
    ensures word != "" ==> TrimEnd(word + Hyphenate(s, false)) == JoinWords(Words(s, word))
    ensures TrimEnd("-" + Hyphenate(s, true)) == Hyphenated(Words(s, ""))
    decreases |s|, 0
  {
    hide TrimEnd, Hyphenated;
    var rest := s[1..];
    HyphenateIsWords(rest, "");
    var tail := "-" + Hyphenate(rest, true);
    assert "" + Hyphenate(rest, true) == Hyphenate(rest, true);
    assert [] + Words(rest, "") == Words(rest, "");
    if word != "" {
      EndOfWord(word, tail);
      assert ([word] + Words(rest, ""))[1..] == Words(rest, "");
    }
  }

  lemma EndOfWord(word: string, tail: string)
    requires word != "" && word[|word| - 1] != '-'
    ensures TrimEnd(word + tail) == word + TrimEnd(tail)
  {
    if TrimEnd(tail) == "" { TrimEndDrops(word, tail); } else { TrimEndAppend(word, tail); }
    TrimEndOfWord(word);
  }

  lemma {:induction false} WordsNonEmpty(s: string, word: string)
    requires word != ""
    ensures Words(s, word) != [] && Words(s, word)[0] != ""
    decreases |s|
  {
    if s != "" && Alphanumeric(s[0]) { WordsNonEmpty(s[1..], word + [s[0]]); }
  }

  lemma {:induction false} TrimStartWords(s: string)
    ensures TrimEnd(TrimStart(Hyphenate(s, false))) == JoinWords(Words(s, ""))
    ensures TrimEnd(TrimStart(Hyphenate(s, true))) == JoinWords(Words(s, ""))
  {
    if s != "" {
      var c, rest := s[0], s[1..];
      if Alphanumeric(c) {
        HyphenateIsWords(rest, [c]);
        assert "" + [c] == [c];
      } else {
        TrimStartWords(rest);
        assert ("-" + Hyphenate(rest, true))[1..] == Hyphenate(rest, true);
        assert "" + Hyphenate(rest, true) == Hyphenate(rest, true);
        assert [] + Words(rest, "") == Words(rest, "");
      }
    }
  }

  /** A slug is the title's words joined by hyphens, cut to 80 characters and freed of a trailing hyphen. */
  lemma SlugIsItsWords(title: string)
    ensures var joined := JoinWords(Words(title, ""));
      && (|joined| <= MAX_LENGTH && joined != "" ==> CreateEventSlug(title) == joined)
      && (|joined| > MAX_LENGTH ==>
            CreateEventSlug(title)
            == if joined[MAX_LENGTH - 1] == '-' then joined[..MAX_LENGTH - 1] else joined[..MAX_LENGTH])
      && (joined == "" ==> CreateEventSlug(title) == "event")
  {
    var joined := JoinWords(Words(title, ""));
    TrimStartWords(title);
    var h := Hyphenate(title, false);
    HyphenateIsSingle(title, false);
    TrimStartKeeps(h);
    TrimEndKeeps(TrimStart(h));
    if |joined| > MAX_LENGTH {
      var cut := joined[..MAX_LENGTH];
      assert !DoubleAt(joined, MAX_LENGTH - 2);
      if cut[MAX_LENGTH - 1] == '-' {
        assert cut[..MAX_LENGTH - 1] == joined[..MAX_LENGTH - 1];
        TrimEndOfWord(joined[..MAX_LENGTH - 1]);
      }
    }
  }

  // ------------------------------------------------------------------------
  // Public slugs
  // ------------------------------------------------------------------------

  lemma InnerHyphen(s: string, i: nat)
    requires IsSlug(s) && i < |s|
    ensures s[i] == '-' ==> i + 1 < |s| && s[i + 1] != '-'
  {
    if i + 1 < |s| { assert !DoubleAt(s, i); }
  }

  /** Of two slugs joined by a double hyphen the first cannot be shorter than in another such pair. */
  lemma FirstPartNotShorter(a: string, b: string, c: string, d: string)
    requires IsSlug(a) && IsSlug(c) && CreatePublicEventSlug(a, b) == CreatePublicEventSlug(c, d)
    ensures |a| >= |c|
  {
    var s := CreatePublicEventSlug(a, b);
    assert s[|a|] == '-' && s[|a| + 1] == '-';
    if |a| < |c| {
      assert s[|a|] == c[|a|];
      InnerHyphen(c, |a|);
    }
  }

  /** The double hyphen occurs once, so the public slug determines organisation and event. */
  lemma PublicSlugInjective(a: string, b: string, c: string, d: string)
    requires IsSlug(a) && IsSlug(c) && CreatePublicEventSlug(a, b) == CreatePublicEventSlug(c, d)
    ensures a == c && b == d
  {
    FirstPartNotShorter(a, b, c, d);
    FirstPartNotShorter(c, d, a, b);
    var s := CreatePublicEventSlug(a, b);
    assert a == s[..|a|] && c == s[..|c|];
    assert b == s[|a| + 2..] && d == s[|c| + 2..];
  }

  /** A title of lower-case letters and digits is its own slug, up to the length limit. */
  lemma PlainTitles(title: string)
    requires title != "" && forall i :: 0 <= i < |title| ==> 'a' <= title[i] <= 'z' || '0' <= title[i] <= '9'
    ensures |title| <= 80 ==> CreateEventSlug(title) == title
  {
    if |title| <= 80 {
      assert IsSlug(title);
      SlugOfSlug(title);
    }
  }

  /** A title without a lower-case letter or digit gets the fallback. */
  lemma {:induction false} EmptyTitles(title: string)
    requires forall i :: 0 <= i < |title| ==> !('a' <= title[i] <= 'z' || '0' <= title[i] <= '9')
    ensures CreateEventSlug(title) == "event"
  {
    OnlyHyphens(title, false);
  }

  lemma {:induction false} OnlyHyphens(s: string, inRun: bool)
    requires forall i :: 0 <= i < |s| ==> !('a' <= s[i] <= 'z' || '0' <= s[i] <= '9')
    ensures Hyphenate(s, inRun) == if s == "" || inRun then "" else "-"
    ensures TrimStart("-") == "" && TrimStart("") == "" && TrimEnd("") == ""
  {
    if s != "" { OnlyHyphens(s[1..], true); }
  }
}
