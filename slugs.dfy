/** Header normalisation. The library slug helper is modelled on ASCII
    only: letters are lower-cased, every maximal run of other characters
    becomes a single `-`, and a run at either end is dropped. (The library
    itself deletes punctuation other than whitespace, `-` and `_` instead of
    turning it into a separator; the header titles the generator looks for
    contain none.) */
module Slugs {

  predicate IsAsciiAlnum(c: char) {
    'a' <= c <= 'z' || 'A' <= c <= 'Z' || '0' <= c <= '9'
  }

  /** The characters a slug is made of, besides the separator. */
  predicate IsSlugChar(c: char) {
    'a' <= c <= 'z' || '0' <= c <= '9'
  }

  function ToLower(c: char): (l: char)
    requires IsAsciiAlnum(c)
    ensures IsSlugChar(l)
    ensures IsSlugChar(c) ==> l == c
  {
    if 'A' <= c <= 'Z' then (c as int + 32) as char else c
  }

  /** Lower-case letters and digits in words joined by single dashes. */
  predicate IsSlug(s: string) {
    && (forall i :: 0 <= i < |s| ==> IsSlugChar(s[i]) || s[i] == '-')
    && (s != [] ==> s[0] != '-' && s[|s| - 1] != '-')
    && (forall i :: 0 < i < |s| ==> s[i - 1] != '-' || s[i] != '-')
  }

  /** Slugs the rest of a title onto `out`; `pending` records that a run of
      separators has been seen since the last letter or digit. */
  function SlugFrom(rest: string, out: string, pending: bool): string
    decreases |rest|
  {
    if rest == [] then out
    else if IsAsciiAlnum(rest[0]) then
      SlugFrom(rest[1..], out + (if pending && out != [] then "-" else "") + [ToLower(rest[0])], false)
    else
      SlugFrom(rest[1..], out, true)
  }

  /** Slugging onto a slug gives a slug that extends it. */
  lemma {:induction false} SlugFromIsSlug(rest: string, out: string, pending: bool)
    requires IsSlug(out)
    ensures IsSlug(SlugFrom(rest, out, pending))
    ensures |out| <= |SlugFrom(rest, out, pending)| && SlugFrom(rest, out, pending)[..|out|] == out
    decreases |rest|
  {
    if rest != [] {
      if IsAsciiAlnum(rest[0]) {
        var sep := if pending && out != [] then "-" else "";
        var out' := out + sep + [ToLower(rest[0])];
        AppendWord(out, sep, ToLower(rest[0]));
        SlugFromIsSlug(rest[1..], out', false);
        assert out'[..|out|] == out;
      } else {
        SlugFromIsSlug(rest[1..], out, true);
      }
    }
  }

  /** Appending a letter or digit, after at most one dash that follows a
      letter or digit, keeps a slug a slug. */
  lemma AppendWord(out: string, sep: string, c: char)
    requires IsSlug(out) && IsSlugChar(c)
    requires sep == "" || (sep == "-" && out != [])
    ensures IsSlug(out + sep + [c])
  {
    var s := out + sep + [c];
    forall i | 0 < i < |s|
      ensures s[i - 1] != '-' || s[i] != '-'
    {
      if i < |out| {
        assert s[i - 1] == out[i - 1] && s[i] == out[i];
      } else if i == |out| {
        assert s[i - 1] == out[|out| - 1];
      }
    }
  }

  /** `Str::slug` as assumed by this model. */
  function Slug(title: string): (slug: string)
    ensures IsSlug(slug)
  {
    SlugFromIsSlug(title, "", false);
    SlugFrom(title, "", false)
  }

  /** Slugging text that is already a slug (between a letter or digit of
      `out` and the rest) only appends it. */
  lemma {:induction false} SlugFromKeepsSlugText(rest: string, out: string, pending: bool)
    requires IsSlug(out)
    requires forall i :: 0 <= i < |rest| ==> IsSlugChar(rest[i]) || rest[i] == '-'
    requires forall i :: 0 < i < |rest| ==> rest[i - 1] != '-' || rest[i] != '-'
    requires rest != [] ==> rest[|rest| - 1] != '-'
    requires rest != [] && rest[0] == '-' ==> !pending && out != []
    requires pending ==> out != [] && rest != [] && rest[0] != '-'
    ensures SlugFrom(rest, out, pending) == out + (if pending then "-" else "") + rest
    decreases |rest|
  {
    if rest != [] {
      if IsAsciiAlnum(rest[0]) {
        var out' := out + (if pending && out != [] then "-" else "") + [ToLower(rest[0])];
        SlugFromKeepsSlugText(rest[1..], out', false);
      } else {
        SlugFromKeepsSlugText(rest[1..], out, true);
      }
    }
  }

  /** A title that is already a slug is matched as written, so slugging is
      idempotent. */
  lemma SlugOfSlug(s: string)
    requires IsSlug(s)
    ensures Slug(s) == s
  {
    SlugFromKeepsSlugText(s, "", false);
  }

  lemma SlugIdempotent(title: string)
    ensures Slug(Slug(title)) == Slug(title)
  {
    SlugOfSlug(Slug(title));
  }

  function LowerWord(w: string): (l: string)
    requires forall i :: 0 <= i < |w| ==> IsAsciiAlnum(w[i])
    ensures |l| == |w|
  {
    seq(|w|, i requires 0 <= i < |w| => ToLower(w[i]))
  }

  /** A run of letters and digits is copied lower-cased, after one dash if
      separators were pending and something was written before. */
  lemma {:induction false} SlugFromWord(w: string, rest: string, out: string, pending: bool)
    requires w != [] && forall i :: 0 <= i < |w| ==> IsAsciiAlnum(w[i])
    ensures SlugFrom(w + rest, out, pending)
         == SlugFrom(rest, out + (if pending && out != [] then "-" else "") + LowerWord(w), false)
    decreases |w|
  {
    var sep := if pending && out != [] then "-" else "";
    var out1 := out + sep + [ToLower(w[0])];
    assert (w + rest)[0] == w[0];
    assert (w + rest)[1..] == w[1..] + rest;
    assert SlugFrom(w + rest, out, pending) == SlugFrom(w[1..] + rest, out1, false);
    assert LowerWord(w) == [ToLower(w[0])] + LowerWord(w[1..]);
    if |w| > 1 {
      SlugFromWord(w[1..], rest, out1, false);
      assert out1 + "" + LowerWord(w[1..]) == out1 + LowerWord(w[1..]);
      assert out1 + LowerWord(w[1..]) == out + sep + LowerWord(w);
    } else {
      assert w[1..] + rest == rest;
      assert LowerWord(w) == [ToLower(w[0])];
      assert out + sep + LowerWord(w) == out1;
    }
  }

  /** A run of other characters writes nothing and leaves a dash pending. */
  lemma {:induction false} SlugFromGap(g: string, rest: string, out: string, pending: bool)
    requires g != [] && forall i :: 0 <= i < |g| ==> !IsAsciiAlnum(g[i])
    ensures SlugFrom(g + rest, out, pending) == SlugFrom(rest, out, true)
    decreases |g|
  {
    assert (g + rest)[1..] == g[1..] + rest;
    if |g| > 1 {
      SlugFromGap(g[1..], rest, out, true);
    }
  }

  /** The header "MM" slugs to the allowed key `mm`. */
  lemma SlugExampleMonth()
    ensures Slug("MM") == "mm"
  {
  }

  /** Two words around a run of separators slug to the lower-cased words
      joined by one dash. */
  lemma SlugOfTwoWords(first: string, gap: string, second: string)
    requires first != [] && forall i :: 0 <= i < |first| ==> IsAsciiAlnum(first[i])
    requires gap != [] && forall i :: 0 <= i < |gap| ==> !IsAsciiAlnum(gap[i])
    requires second != [] && forall i :: 0 <= i < |second| ==> IsAsciiAlnum(second[i])
    ensures Slug(first + gap + second) == LowerWord(first) + "-" + LowerWord(second)
  {
    var lowered := LowerWord(first);
    assert first + gap + second == first + (gap + second);
    SlugFromWord(first, gap + second, "", false);
    assert "" + "" + lowered == lowered;
    SlugFromGap(gap, second, lowered, false);
    assert second + "" == second;
    SlugFromWord(second, "", lowered, true);
  }

  /** The header "Festival Name" slugs to the allowed key `festival-name`. */
  lemma SlugExampleName(title: string)
    requires title == "Festival Name"
    ensures Slug(title) == "festival-name"
  {
    var festival, gap, name := "Festival", " ", "Name";
    assert title == festival + gap + name;
    assert LowerWord(festival) == "festival";
    assert LowerWord(name) == "name";
    SlugOfTwoWords(festival, gap, name);
  }
}
