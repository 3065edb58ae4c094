/** SlugUtil.toSlug: a post title turned into a URL path segment by trimming,
    lower-casing, dropping every character outside [a-z0-9\s-] and turning each
    run of whitespace into one hyphen; "post" stands in for an empty outcome. */
module SlugUtil {
  import opened Common

  /** `\s` in java.util.regex without UNICODE_CHARACTER_CLASS: [ \t\n\x0B\f\r]. */
  predicate IsRegexSpace(c: char)
  {
    c == ' ' || 9 <= c as int <= 13
  }

  /** String.trim removes every leading and trailing character at or below U+0020. */
  predicate IsTrimmed(c: char)
  {
    c as int <= 32
  }

  /** The class [a-z0-9\s-] that the first replaceAll keeps. */
  predicate IsKept(c: char)
  {
    ('a' <= c <= 'z') || ('0' <= c <= '9') || IsRegexSpace(c) || c == '-'
  }

  /** The characters a slug is made of. */
  predicate IsSlugChar(c: char)
  {
    ('a' <= c <= 'z') || ('0' <= c <= '9') || c == '-'
  }

  predicate IsSlug(s: string)
  {
    forall i :: 0 <= i < |s| ==> IsSlugChar(s[i])
  }

  predicate AllKept(s: string)
  {
    forall i :: 0 <= i < |s| ==> IsKept(s[i])
  }

  predicate NoRegexSpace(s: string)
  {
    forall i :: 0 <= i < |s| ==> !IsRegexSpace(s[i])
  }

  function TrimStart(s: string): string
  {
    if s != [] && IsTrimmed(s[0]) then TrimStart(s[1..]) else s
  }

  function TrimEnd(s: string): string
  {
    if s != [] && IsTrimmed(s[|s| - 1]) then TrimEnd(s[..|s| - 1]) else s
  }

  /** String.trim. */
  function Trim(s: string): string
  {
    TrimEnd(TrimStart(s))
  }

  /** String.toLowerCase, restricted to ASCII letters. */
  function ToLowerCase(s: string): string
  {
    seq(|s|, i requires 0 <= i < |s| => LowerAscii(s[i]))
  }

  /** replaceAll("[^a-z0-9\\s-]", ""): the kept characters, in order. */
  function RemoveDisallowed(s: string): string
  {
    if s == [] then []
    else (if IsKept(s[0]) then [s[0]] else []) + RemoveDisallowed(s[1..])
  }

  /** replaceAll("\\s+", "-"): every maximal whitespace run becomes one hyphen.
      Read left to right, a whitespace character followed by another one is
      dropped and the last one of its run turns into the hyphen. */
  function HyphenateSpaces(s: string): string
  {
    if s == [] then []
    else if !IsRegexSpace(s[0]) then [s[0]] + HyphenateSpaces(s[1..])
    else if |s| > 1 && IsRegexSpace(s[1]) then HyphenateSpaces(s[1..])
    else "-" + HyphenateSpaces(s[1..])
  }

  /** The filter keeps exactly the allowed characters: its output has only
      those, an input made only of them passes unchanged, and an input with
      none of them leaves nothing. */
  lemma {:induction false} RemoveDisallowedKeeps(s: string)
    ensures AllKept(RemoveDisallowed(s))
    ensures |RemoveDisallowed(s)| <= |s|
    ensures AllKept(s) ==> RemoveDisallowed(s) == s
    ensures (forall i :: 0 <= i < |s| ==> !IsKept(s[i])) ==> RemoveDisallowed(s) == []
  {
    if s != [] {
      RemoveDisallowedKeeps(s[1..]);
    }
  }

  /** After hyphenation no whitespace is left, the allowed characters become
      slug characters, a text without whitespace is unchanged, and a non-empty
      text stays non-empty. */
  lemma {:induction false} HyphenateSpacesProps(s: string)
    ensures NoRegexSpace(HyphenateSpaces(s))
    ensures AllKept(s) ==> IsSlug(HyphenateSpaces(s))
    ensures NoRegexSpace(s) ==> HyphenateSpaces(s) == s
    ensures s != [] ==> HyphenateSpaces(s) != []
  {
    if s != [] {
      HyphenateSpacesProps(s[1..]);
    }
  }

  /** SlugUtil.toSlug; a null title is modelled by None. */
  function ToSlug(input: Option<string>): (r: string)
    ensures r == [] <==> input.None?
    ensures IsSlug(r)
  {
    if input.None? then ""
    else
      var kept := RemoveDisallowed(ToLowerCase(Trim(input.value)));
      RemoveDisallowedKeeps(ToLowerCase(Trim(input.value)));
      HyphenateSpacesProps(kept);
      var slug := HyphenateSpaces(kept);
      if slug == [] then
        assert "post"[0] == 'p' && "post"[1] == 'o' && "post"[2] == 's' && "post"[3] == 't';
        "post"
      else slug
  }

  /** When no character of the trimmed input survives the filter, the fallback "post" is used. */
  lemma NothingSurvivesGivesPost(s: string)
    requires forall i :: 0 <= i < |Trim(s)| ==> !IsKept(LowerAscii(Trim(s)[i]))
    ensures ToSlug(Some(s)) == "post"
  {
    var lowered := ToLowerCase(Trim(s));
    assert forall i :: 0 <= i < |lowered| ==> !IsKept(lowered[i]);
    RemoveDisallowedKeeps(lowered);
  }

  lemma {:induction false} TrimOfSlug(s: string)
    requires IsSlug(s)
    ensures Trim(s) == s
  {
    assert s == [] || !IsTrimmed(s[0]);
    assert TrimStart(s) == s;
    assert s == [] || !IsTrimmed(s[|s| - 1]);
  }

  /** Applying toSlug to its own non-null output changes nothing. */
  lemma {:induction false} ToSlugIdempotent(s: string)
    ensures ToSlug(Some(ToSlug(Some(s)))) == ToSlug(Some(s))
  {
    var t := ToSlug(Some(s));
    TrimOfSlug(t);
    assert ToLowerCase(t) == t;
    assert AllKept(t);
    RemoveDisallowedKeeps(t);
    assert NoRegexSpace(t);
    HyphenateSpacesProps(t);
  }

  /** A non-empty whitespace run followed by a non-space yields a single hyphen. */
  lemma {:induction false} RunOfSpaces(w: string, b: string)
    requires w != [] && forall i :: 0 <= i < |w| ==> IsRegexSpace(w[i])
    requires b == [] || !IsRegexSpace(b[0])
    ensures HyphenateSpaces(w + b) == "-" + HyphenateSpaces(b)
    decreases |w|
  {
    assert (w + b)[1..] == w[1..] + b;
    if |w| == 1 {
      assert w[1..] + b == b;
    } else {
      assert (w + b)[1] == w[1];
      RunOfSpaces(w[1..], b);
    }
  }

  /** Hyphenation works piecewise: a boundary with no whitespace on its left splits it. */
  lemma {:induction false} HyphenateConcat(x: string, y: string)
    requires x == [] || !IsRegexSpace(x[|x| - 1])
    ensures HyphenateSpaces(x + y) == HyphenateSpaces(x) + HyphenateSpaces(y)
    decreases |x|
  {
    if x == [] {
      assert x + y == y;
    } else {
      assert (x + y)[0] == x[0] && (x + y)[1..] == x[1..] + y;
      if |x| > 1 {
        assert (x + y)[1] == x[1];
      }
      HyphenateConcat(x[1..], y);
    }
  }

  /** Each maximal whitespace run, of any length, becomes exactly one hyphen:
      text before the run, then the run, then text after it. */
  lemma WhitespaceRunBecomesOneHyphen(a: string, w: string, b: string)
    requires a == [] || !IsRegexSpace(a[|a| - 1])
    requires w != [] && forall i :: 0 <= i < |w| ==> IsRegexSpace(w[i])
    requires b == [] || !IsRegexSpace(b[0])
    ensures HyphenateSpaces(a + (w + b)) == HyphenateSpaces(a) + ("-" + HyphenateSpaces(b))
  {
    HyphenateConcat(a, w + b);
    RunOfSpaces(w, b);
  }

  /** The filter works piecewise. */
  lemma {:induction false} RemoveDisallowedConcat(x: string, y: string)
    ensures RemoveDisallowed(x + y) == RemoveDisallowed(x) + RemoveDisallowed(y)
    decreases |x|
  {
    if x == [] {
      assert x + y == y;
    } else {
      assert (x + y)[0] == x[0] && (x + y)[1..] == x[1..] + y;
      RemoveDisallowedConcat(x[1..], y);
    }
  }

  /** Characters a title word may hold for the word to pass through unchanged
      except for lower-casing: ASCII letters, digits and hyphens. */
  predicate IsWordChar(c: char)
  {
    ('a' <= c <= 'z') || ('A' <= c <= 'Z') || ('0' <= c <= '9') || c == '-'
  }

  predicate IsWord(w: string)
  {
    w != [] && forall i :: 0 <= i < |w| ==> IsWordChar(w[i])
  }

  lemma TrimUnchanged(s: string)
    requires s != [] && !IsTrimmed(s[0]) && !IsTrimmed(s[|s| - 1])
    ensures Trim(s) == s
  {
    assert TrimStart(s) == s;
  }

  /** A lowered word keeps its length, passes the filter and holds no whitespace. */
  lemma LoweredWord(w: string)
    requires IsWord(w)
    ensures |ToLowerCase(w)| == |w|
    ensures AllKept(ToLowerCase(w)) && NoRegexSpace(ToLowerCase(w))
    ensures HyphenateSpaces(ToLowerCase(w)) == ToLowerCase(w)
  {
    HyphenateSpacesProps(ToLowerCase(w));
  }

  /** A one-word title becomes the word in lower case. */
  lemma WordSlug(w: string)
    requires IsWord(w)
    ensures ToSlug(Some(w)) == ToLowerCase(w)
  {
    TrimUnchanged(w);
    LoweredWord(w);
    RemoveDisallowedKeeps(ToLowerCase(w));
  }

  /** The four stages of the pipeline, with a non-empty outcome. */
  lemma ToSlugStages(title: string, lowered: string, kept: string, slug: string)
    requires ToLowerCase(Trim(title)) == lowered
    requires RemoveDisallowed(lowered) == kept
    requires HyphenateSpaces(kept) == slug && slug != []
    ensures ToSlug(Some(title)) == slug
  {
  }

  /** The stages of the pipeline for two words separated by one space. */
  lemma TwoWordsTrimmed(a: string, b: string)
    requires IsWord(a) && IsWord(b)
    ensures Trim(a + " " + b) == a + " " + b
  {
    var t := a + " " + b;
    assert t[0] == a[0] && t[|t| - 1] == b[|b| - 1];
    TrimUnchanged(t);
  }

  lemma TwoWordsLowered(a: string, b: string)
    requires IsWord(a) && IsWord(b)
    ensures ToLowerCase(a + " " + b) == ToLowerCase(a) + (" " + ToLowerCase(b))
  {
    LoweredWord(a);
    LoweredWord(b);
  }

  lemma TwoWordsKept(a: string, b: string)
    requires IsWord(a) && IsWord(b)
    ensures var lt := ToLowerCase(a) + (" " + ToLowerCase(b)); RemoveDisallowed(lt) == lt
  {
    var lt := ToLowerCase(a) + (" " + ToLowerCase(b));
    LoweredWord(a);
    LoweredWord(b);
    assert AllKept(lt);
    RemoveDisallowedKeeps(lt);
  }

  lemma TwoWordsHyphenated(a: string, b: string)
    requires IsWord(a) && IsWord(b)
    ensures var la, lb := ToLowerCase(a), ToLowerCase(b);
      HyphenateSpaces(la + (" " + lb)) == la + "-" + lb
  {
    var la, lb := ToLowerCase(a), ToLowerCase(b);
    LoweredWord(a);
    LoweredWord(b);
    WhitespaceRunBecomesOneHyphen(la, " ", lb);
    assert la + ("-" + lb) == la + "-" + lb;
  }

  /** Two words separated by one space become the lowered words joined by a hyphen. */
  lemma TwoWordSlug(a: string, b: string)
    requires IsWord(a) && IsWord(b)
    ensures ToSlug(Some(a + " " + b)) == ToLowerCase(a) + "-" + ToLowerCase(b)
  {
    var lt := ToLowerCase(a) + (" " + ToLowerCase(b));
    TwoWordsTrimmed(a, b);
    TwoWordsLowered(a, b);
    TwoWordsKept(a, b);
    TwoWordsHyphenated(a, b);
    ToSlugStages(a + " " + b, lt, lt, ToLowerCase(a) + "-" + ToLowerCase(b));
  }

  /** Worked examples: the titles used by the post service tests. */
  lemma MyTitleSlug()
    ensures ToSlug(Some("My Title")) == "my-title"
  {
    assert IsWord("My") && IsWord("Title");
    TwoWordSlug("My", "Title");
    assert "My" + " " + "Title" == "My Title";
    assert ToLowerCase("My") + "-" + ToLowerCase("Title") == "my-title";
  }

  lemma NewTitleSlug()
    ensures ToSlug(Some("New Title")) == "new-title"
  {
    assert IsWord("New") && IsWord("Title");
    TwoWordSlug("New", "Title");
    assert "New" + " " + "Title" == "New Title";
    assert ToLowerCase("New") + "-" + ToLowerCase("Title") == "new-title";
  }

  lemma HelloSlug()
    ensures ToSlug(Some("Hello")) == "hello"
  {
    assert IsWord("Hello");
    WordSlug("Hello");
    assert ToLowerCase("Hello") == "hello";
  }

  /** Trimming happens before filtering: a word, a space and a character the
      filter drops end in a hyphen. */
  lemma WordThenDroppedChar(w: string, c: char)
    requires IsWord(w) && !IsTrimmed(c) && !IsKept(LowerAscii(c))
    ensures ToSlug(Some(w + " " + [c])) == ToLowerCase(w) + "-"
  {
    var t := w + " " + [c];
    var lw := ToLowerCase(w);
    var lt := (lw + " ") + [LowerAscii(c)];
    assert Trim(t) == t by {
      assert t[0] == w[0] && t[|t| - 1] == c;
      TrimUnchanged(t);
    }
    assert ToLowerCase(t) == lt by {
      LoweredWord(w);
    }
    assert RemoveDisallowed(lt) == lw + " " by {
      LoweredWord(w);
      RemoveDisallowedConcat(lw + " ", [LowerAscii(c)]);
      assert RemoveDisallowed([LowerAscii(c)]) == [];
      assert AllKept(lw + " ");
      RemoveDisallowedKeeps(lw + " ");
    }
    assert HyphenateSpaces(lw + " ") == lw + "-" by {
      LoweredWord(w);
      WhitespaceRunBecomesOneHyphen(lw, " ", []);
      assert lw + (" " + []) == lw + " ";
    }
    ToSlugStages(t, lt, lw + " ", lw + "-");
  }

  lemma TrailingHyphenPossible()
    ensures ToSlug(Some("hello !")) == "hello-"
  {
    assert IsWord("hello") && !IsKept('!');
    WordThenDroppedChar("hello", '!');
    assert "hello" + " " + ['!'] == "hello !";
    assert ToLowerCase("hello") == "hello";
  }

  /** Hyphens already in the title are kept beside the one each space becomes. */
  lemma SpacedHyphenKept()
    ensures ToLowerCase(Trim("a - b")) == "a - b"
    ensures RemoveDisallowed("a - b") == "a - b"
  {
    TrimUnchanged("a - b");
    assert AllKept("a - b");
    RemoveDisallowedKeeps("a - b");
  }

  lemma SpacedHyphenHyphenated()
    ensures HyphenateSpaces("a - b") == "a---b"
  {
    assert "a - b" == "a" + (" " + ("-" + (" " + "b")));
    WhitespaceRunBecomesOneHyphen("a", " ", "-" + (" " + "b"));
    WhitespaceRunBecomesOneHyphen("-", " ", "b");
  }

  lemma HyphensAreKept()
    ensures ToSlug(Some("a - b")) == "a---b"
  {
    SpacedHyphenKept();
    SpacedHyphenHyphenated();
    ToSlugStages("a - b", "a - b", "a - b", "a---b");
  }

  lemma BlankTitleGivesPost()
    ensures ToSlug(Some("   ")) == "post"
    ensures ToSlug(None) == ""
  {
    assert Trim("   ") == "";
  }
}
