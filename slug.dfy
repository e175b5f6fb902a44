/**
 * Slug generation: the server's `generateSlug` (config.php) and the
 * browser's `generateSlug` (assets/js/main.js).  Both are chains of regex
 * replacements; the two character-class steps they share, "drop everything
 * outside the class" and "collapse runs of whitespace and hyphens into one
 * hyphen", are written once here, parametrised by the regex dialect because
 * PCRE's `\s` and ECMAScript's `\s` are different sets.
 */
module Slug {
  import opened Php

  datatype Dialect = Pcre | EcmaScript

  /** `\s`: PCRE2 without the `u` flag knows six ASCII characters; ECMAScript
      adds the Unicode white space and line terminators. */
  predicate IsSpace(d: Dialect, c: char)
  {
    IsAsciiSpace(c) || (d == EcmaScript && IsUnicodeSpace(c))
  }

  predicate IsAsciiSpace(c: char)
  {
    c == ' ' || c == '\t' || c == '\n' || c == '\U{000B}' || c == '\U{000C}' || c == '\r'
  }

  predicate IsUnicodeSpace(c: char)
  {
    && '\U{00A0}' <= c
    && (|| c == '\U{00A0}' || c == '\U{1680}' || ('\U{2000}' <= c <= '\U{200A}')
        || c == '\U{2028}' || c == '\U{2029}' || c == '\U{202F}' || c == '\U{205F}'
        || c == '\U{3000}' || c == '\U{FEFF}')
  }

  /** On ASCII the two `\s` classes coincide, and no slug character is one. */
  lemma SpaceClasses(c: char)
    ensures IsAscii(c) ==> (IsSpace(Pcre, c) <==> IsSpace(EcmaScript, c))
    ensures IsSlugChar(c) ==> !IsSpace(Pcre, c) && !IsSpace(EcmaScript, c)
    ensures IsSep(Pcre, LowerChar(c)) == IsSep(Pcre, c)
    ensures IsSep(EcmaScript, LowerChar(c)) == IsSep(EcmaScript, c)
    ensures IsKept(Pcre, LowerChar(c)) == IsKept(Pcre, c)
  {
  }

  /** `[\s-]` */
  predicate IsSep(d: Dialect, c: char)
  {
    IsSpace(d, c) || c == '-'
  }

  /** The class the first replacement keeps: `[a-zA-Z0-9\s-]` on the server,
      `[a-z0-9\s-]` in the browser (which has already lower-cased). */
  predicate IsKept(d: Dialect, c: char)
  {
    IsLower(c) || IsDigit(c) || (d == Pcre && IsUpper(c)) || IsSep(d, c)
  }

  predicate IsSlugChar(c: char)
  {
    IsLower(c) || IsDigit(c) || c == '-'
  }

  predicate NoDoubleHyphen(s: string)
  {
    forall i, j :: 0 <= i < |s| && 0 <= j < |s| && j == i + 1 ==> !(s[i] == '-' && s[j] == '-')
  }

  /** What both implementations promise: only `[a-z0-9-]`, no hyphen at either
      end and never two hyphens in a row. */
  predicate IsSlug(s: string)
  {
    && (forall i :: 0 <= i < |s| ==> IsSlugChar(s[i]))
    && (|s| > 0 ==> s[0] != '-' && s[|s| - 1] != '-')
    && NoDoubleHyphen(s)
  }

  /** `replace(/[^<kept>]/g, '')` */
  function Filter(d: Dialect, s: string): (r: string)
    ensures |r| <= |s|
    ensures forall c :: c in r ==> c in s && IsKept(d, c)
    ensures forall c :: c in s && IsKept(d, c) ==> c in r
  {
    if s == [] then []
    else if IsKept(d, s[0]) then [s[0]] + Filter(d, s[1..])
    else Filter(d, s[1..])
  }

  /** The filter works character by character, so it keeps the order of what
      it keeps: filtering a concatenation concatenates the filtered parts. */
  lemma {:induction false} FilterConcat(d: Dialect, a: string, b: string)
    ensures Filter(d, a + b) == Filter(d, a) + Filter(d, b)
  {
    if a == [] {
      assert a + b == b;
    } else {
      assert (a + b)[0] == a[0];
      assert (a + b)[1..] == a[1..] + b;
      FilterConcat(d, a[1..], b);
    }
  }

  /** A string none of whose characters is kept filters to nothing. */
  lemma {:induction false} FilterDropsAll(d: Dialect, s: string)
    requires forall i :: 0 <= i < |s| ==> !IsKept(d, s[i])
    ensures Filter(d, s) == []
  {
    if s != [] {
      FilterDropsAll(d, s[1..]);
    }
  }

  /** The separators at the front of `s`, dropped. */
  function DropSeps(d: Dialect, s: string): (r: string)
    ensures |r| <= |s| && r == s[|s| - |r|..]
    ensures forall i :: 0 <= i < |s| - |r| ==> IsSep(d, s[i])
    ensures r == [] || !IsSep(d, r[0])
  {
    if |s| > 0 && IsSep(d, s[0]) then DropSeps(d, s[1..]) else s
  }

  /** `replace(/[\s-]+/g, '-')`: every maximal run of separators becomes one
      hyphen. */
  function Collapse(d: Dialect, s: string): (r: string)
    ensures r == [] <==> s == []
    ensures r != [] ==> (r[0] == '-' <==> IsSep(d, s[0]))
    ensures NoDoubleHyphen(r)
    decreases |s|
  {
    if s == [] then []
    else if IsSep(d, s[0]) then
      var tail := Collapse(d, DropSeps(d, s[1..]));
      assert tail == [] || tail[0] != '-';
      ConsNoDoubleHyphen('-', tail);
      "-" + tail
    else
      var tail := Collapse(d, s[1..]);
      ConsNoDoubleHyphen(s[0], tail);
      [s[0]] + tail
  }

  /** Putting a character in front keeps "no --" unless it makes a new pair. */
  lemma ConsNoDoubleHyphen(c: char, t: string)
    requires NoDoubleHyphen(t)
    requires c == '-' ==> t == [] || t[0] != '-'
    ensures NoDoubleHyphen([c] + t)
  {
    var r := [c] + t;
    forall i, j | 0 <= i < |r| && 0 <= j < |r| && j == i + 1
      ensures !(r[i] == '-' && r[j] == '-')
    {
      if i > 0 {
        assert r[i] == t[i - 1] && r[j] == t[j - 1];
      }
    }
  }

  /** Every character `Collapse` emits is a hyphen or a non-separator of its
      input, and every non-separator of the input survives. */
  lemma CollapseChars(d: Dialect, s: string)
    ensures forall c :: c in Collapse(d, s) ==> c == '-' || (c in s && !IsSep(d, c))
    ensures forall c :: c in s && !IsSep(d, c) ==> c in Collapse(d, s)
  {
    CollapseEmits(d, s);
    CollapseKeeps(d, s);
    var r := Collapse(d, s);
    forall c | c in r ensures c == '-' || (c in s && !IsSep(d, c)) {
      var i :| 0 <= i < |r| && r[i] == c;
      assert EmitsFrom(d, r, s);
    }
  }

  predicate EmitsFrom(d: Dialect, r: string, s: string)
  {
    forall i :: 0 <= i < |r| ==> r[i] == '-' || (r[i] in s && !IsSep(d, r[i]))
  }

  lemma {:induction false} CollapseEmits(d: Dialect, s: string)
    ensures EmitsFrom(d, Collapse(d, s), s)
    decreases |s|, 1
  {
    if s != [] {
      if IsSep(d, s[0]) {
        CollapseEmitsSep(d, s);
      } else {
        CollapseEmitsOther(d, s);
      }
    }
  }

  lemma {:induction false} CollapseEmitsSep(d: Dialect, s: string)
    requires s != [] && IsSep(d, s[0])
    ensures EmitsFrom(d, Collapse(d, s), s)
    decreases |s|, 0
  {
    var tail := s[1..];
    var rest := DropSeps(d, tail);
    SuffixOfTail(s, tail, rest);
    CollapseSepStep(d, s);
    CollapseEmits(d, rest);
    EmitsPrepend(d, '-', s, rest, Collapse(d, rest));
  }

  /** A suffix of the tail of `s` is a suffix of `s`. */
  lemma SuffixOfTail(s: string, tail: string, rest: string)
    requires s != [] && tail == s[1..]
    requires |rest| <= |tail| && rest == tail[|tail| - |rest|..]
    ensures |rest| <= |s| && rest == s[|s| - |rest|..]
  {
  }

  lemma {:induction false} CollapseEmitsOther(d: Dialect, s: string)
    requires s != [] && !IsSep(d, s[0])
    ensures EmitsFrom(d, Collapse(d, s), s)
    decreases |s|, 0
  {
    CollapseOtherStep(d, s);
    CollapseEmits(d, s[1..]);
    EmitsPrepend(d, s[0], s, s[1..], Collapse(d, s[1..]));
  }

  lemma CollapseSepStep(d: Dialect, s: string)
    requires s != [] && IsSep(d, s[0])
    ensures Collapse(d, s) == "-" + Collapse(d, DropSeps(d, s[1..]))
  {
  }

  lemma CollapseOtherStep(d: Dialect, s: string)
    requires s != [] && !IsSep(d, s[0])
    ensures Collapse(d, s) == [s[0]] + Collapse(d, s[1..])
  {
  }

  /** Emitting `c` (a hyphen or a non-separator of `s`) before what a suffix
      of `s` emits keeps everything emitted from `s`. */
  lemma EmitsPrepend(d: Dialect, c: char, s: string, rest: string, t: string)
    requires |rest| <= |s| && rest == s[|s| - |rest|..]
    requires c == '-' || (c in s && !IsSep(d, c))
    requires EmitsFrom(d, t, rest)
    ensures EmitsFrom(d, [c] + t, s)
  {
    var r := [c] + t;
    assert forall x :: x in rest ==> x in s;
    forall i | 1 <= i < |r| ensures r[i] == t[i - 1] {
    }
  }

  lemma {:induction false} CollapseKeeps(d: Dialect, s: string)
    ensures forall c :: c in s && !IsSep(d, c) ==> c in Collapse(d, s)
    decreases |s|
  {
    if s != [] {
      var r := Collapse(d, s);
      if IsSep(d, s[0]) {
        var rest := DropSeps(d, s[1..]);
        var k := |s| - |rest|;
        assert r == "-" + Collapse(d, rest);
        assert rest == s[k..];
        CollapseKeeps(d, rest);
        forall i | 0 <= i < |s| && !IsSep(d, s[i]) ensures s[i] in r {
          assert k <= i;
          assert rest[i - k] == s[i];
        }
      } else {
        assert r == [s[0]] + Collapse(d, s[1..]);
        CollapseKeeps(d, s[1..]);
        forall i | 0 < i < |s| && !IsSep(d, s[i]) ensures s[i] in r {
          assert s[1..][i - 1] == s[i];
        }
      }
    }
  }

  function TrimLeadingHyphens(s: string): (r: string)
    ensures |r| <= |s| && r == s[|s| - |r|..]
    ensures forall i :: 0 <= i < |s| - |r| ==> s[i] == '-'
    ensures r == [] || r[0] != '-'
  {
    if |s| > 0 && s[0] == '-' then TrimLeadingHyphens(s[1..]) else s
  }

  function TrimTrailingHyphens(s: string): (r: string)
    ensures |r| <= |s| && r == s[..|r|]
    ensures forall i :: |r| <= i < |s| ==> s[i] == '-'
    ensures r == [] || r[|r| - 1] != '-'
  {
    if |s| > 0 && s[|s| - 1] == '-' then TrimTrailingHyphens(s[..|s| - 1]) else s
  }

  /** PHP `trim($s, '-')`, and equally ECMAScript `replace(/^-+|-+$/g, '')`. */
  function TrimHyphens(s: string): (r: string)
    ensures r == [] || (r[0] != '-' && r[|r| - 1] != '-')
    ensures NoDoubleHyphen(s) ==> NoDoubleHyphen(r)
    ensures forall c :: c in r ==> c in s
    ensures forall c :: c in s && c != '-' ==> c in r
  {
    var t := TrimLeadingHyphens(s);
    var r := TrimTrailingHyphens(t);
    TrimmedIsSlice(s, |s| - |t|, r);
    r
  }

  /** `r` is the slice of `s` at `k` that leaves only hyphens on either side. */
  lemma TrimmedIsSlice(s: string, k: nat, r: string)
    requires k + |r| <= |s| && r == s[k..k + |r|]
    requires forall i :: 0 <= i < k ==> s[i] == '-'
    requires forall i :: k + |r| <= i < |s| ==> s[i] == '-'
    ensures NoDoubleHyphen(s) ==> NoDoubleHyphen(r)
    ensures forall c :: c in r ==> c in s
    ensures forall c :: c in s && c != '-' ==> c in r
  {
    forall i | 0 <= i < |r| ensures r[i] == s[k + i] && r[i] in s {
    }
    forall i | 0 <= i < |s| && s[i] != '-' ensures s[i] in r {
      assert r[i - k] == s[i];
    }
    if NoDoubleHyphen(s) {
      forall i, j | 0 <= i < j < |r| && j == i + 1 ensures !(r[i] == '-' && r[j] == '-') {
        assert r[i] == s[k + i] && r[j] == s[k + j];
      }
    }
  }

  /** The server's `generateSlug`: drop `[^a-zA-Z0-9\s-]`, collapse `[\s-]+`
      to `-`, trim hyphens, lower-case. */
  function GenerateSlug(text: string): (r: string)
    ensures IsSlug(r)
  {
    CollapsedIsAlnumOrHyphen(Pcre, text);
    LowerPreservesSlugShape(TrimHyphens(Collapse(Pcre, Filter(Pcre, text))));
    AsciiLower(TrimHyphens(Collapse(Pcre, Filter(Pcre, text))))
  }

  /** No separator is left after `Collapse`, only hyphens and letters/digits. */
  lemma CollapsedIsAlnumOrHyphen(d: Dialect, text: string)
    ensures forall c :: c in TrimHyphens(Collapse(d, Filter(d, text))) ==>
      c == '-' || (IsAsciiAlnum(c) && (d == EcmaScript ==> !IsUpper(c)))
  {
    CollapseChars(d, Filter(d, text));
  }

  lemma LowerPreservesSlugShape(t: string)
    requires forall c :: c in t ==> c == '-' || IsAsciiAlnum(c)
    requires t == [] || (t[0] != '-' && t[|t| - 1] != '-')
    requires NoDoubleHyphen(t)
    ensures IsSlug(AsciiLower(t))
  {
    var r := AsciiLower(t);
    forall i | 0 <= i < |t| ensures IsSlugChar(r[i]) && (r[i] == '-' <==> t[i] == '-') {
      assert t[i] in t;
      LowerSlugChar(t[i]);
    }
    assert NoDoubleHyphen(r) by {
      forall i, j | 0 <= i < j < |r| && j == i + 1 ensures !(r[i] == '-' && r[j] == '-') {
        assert !(t[i] == '-' && t[j] == '-');
      }
    }
  }

  lemma LowerSlugChar(c: char)
    requires c == '-' || IsAsciiAlnum(c)
    ensures IsSlugChar(LowerChar(c)) && (LowerChar(c) == '-' <==> c == '-')
  {
  }

  // ---------------------------------------------------------------------------
  // Idempotence: a slug is a fixed point of every step

  lemma {:induction false} FilterFixpoint(d: Dialect, s: string)
    requires forall i :: 0 <= i < |s| ==> IsKept(d, s[i])
    ensures Filter(d, s) == s
  {
    if s != [] {
      FilterFixpoint(d, s[1..]);
    }
  }

  lemma {:induction false} CollapseFixpoint(d: Dialect, s: string)
    requires forall i :: 0 <= i < |s| ==> !IsSpace(d, s[i])
    requires NoDoubleHyphen(s)
    ensures Collapse(d, s) == s
    decreases |s|
  {
    if s != [] {
      var tail := s[1..];
      FixpointTail(d, s);
      CollapseFixpoint(d, tail);
      if IsSep(d, s[0]) {
        CollapseSepStep(d, s);
        assert DropSeps(d, tail) == tail;
      } else {
        CollapseOtherStep(d, s);
      }
      HeadThenTail(s);
    }
  }

  /** The tail of a string with no spaces and no doubled hyphen has neither,
      and does not start with a separator after a leading hyphen. */
  lemma FixpointTail(d: Dialect, s: string)
    requires s != []
    requires forall i :: 0 <= i < |s| ==> !IsSpace(d, s[i])
    requires NoDoubleHyphen(s)
    ensures forall i :: 0 <= i < |s[1..]| ==> !IsSpace(d, s[1..][i])
    ensures NoDoubleHyphen(s[1..])
    ensures IsSep(d, s[0]) <==> s[0] == '-'
    ensures IsSep(d, s[0]) && s[1..] != [] ==> !IsSep(d, s[1..][0])
  {
    var tail := s[1..];
    assert forall i :: 0 <= i < |tail| ==> !IsSpace(d, tail[i]) by {
      forall i | 0 <= i < |tail| ensures tail[i] == s[i + 1] { }
    }
    assert NoDoubleHyphen(tail) by {
      forall i, j | 0 <= i < |tail| && 0 <= j < |tail| && j == i + 1
        ensures !(tail[i] == '-' && tail[j] == '-')
      {
        assert tail[i] == s[i + 1] && tail[j] == s[j + 1];
      }
    }
    assert tail != [] ==> s[1] == tail[0];
  }

  lemma HeadThenTail(s: string)
    requires s != []
    ensures [s[0]] + s[1..] == s
  {
  }

  lemma SlugIsTrimmed(s: string)
    requires IsSlug(s)
    ensures TrimHyphens(s) == s
  {
    assert TrimLeadingHyphens(s) == s;
    assert TrimTrailingHyphens(s) == s;
  }

  lemma SlugIsLower(s: string)
    requires IsSlug(s)
    ensures AsciiLower(s) == s
  {
  }

  /** A well-formed slug passes through `generateSlug` unchanged. */
  lemma SlugFixpoint(s: string)
    requires IsSlug(s)
    ensures GenerateSlug(s) == s
  {
    FilterFixpoint(Pcre, s);
    CollapseFixpoint(Pcre, s);
    SlugIsTrimmed(s);
    SlugIsLower(s);
  }

  lemma GenerateSlugIdempotent(text: string)
    ensures GenerateSlug(GenerateSlug(text)) == GenerateSlug(text)
  {
    SlugFixpoint(GenerateSlug(text));
  }

  // ---------------------------------------------------------------------------
  // The slug is empty exactly when the text has no ASCII letter or digit

  lemma {:induction false} CollapseOfSeps(d: Dialect, s: string)
    requires forall i :: 0 <= i < |s| ==> IsSep(d, s[i])
    ensures forall i :: 0 <= i < |Collapse(d, s)| ==> Collapse(d, s)[i] == '-'
  {
  }

  lemma AllHyphensTrimToEmpty(s: string)
    requires forall i :: 0 <= i < |s| ==> s[i] == '-'
    ensures TrimHyphens(s) == []
  {
  }

  lemma NoAlnumGivesEmpty(text: string)
    requires forall i :: 0 <= i < |text| ==> !IsAsciiAlnum(text[i])
    ensures GenerateSlug(text) == []
  {
    var kept := Filter(Pcre, text);
    assert forall i :: 0 <= i < |kept| ==> kept[i] in kept && IsSep(Pcre, kept[i]);
    CollapseOfSeps(Pcre, kept);
    AllHyphensTrimToEmpty(Collapse(Pcre, kept));
  }

  lemma AlnumSurvives(text: string, i: nat)
    requires i < |text| && IsAsciiAlnum(text[i])
    ensures GenerateSlug(text) != []
  {
    var kept := Filter(Pcre, text);
    var c := text[i];
    assert c in text && IsKept(Pcre, c) && !IsSep(Pcre, c);
    assert c in kept;
    CollapseChars(Pcre, kept);
    assert c in Collapse(Pcre, kept);
    assert c in TrimHyphens(Collapse(Pcre, kept));
  }

  lemma GenerateSlugEmptyIff(text: string)
    ensures GenerateSlug(text) == [] <==> forall i :: 0 <= i < |text| ==> !IsAsciiAlnum(text[i])
  {
    if forall i :: 0 <= i < |text| ==> !IsAsciiAlnum(text[i]) {
      NoAlnumGivesEmpty(text);
    } else {
      var i :| 0 <= i < |text| && IsAsciiAlnum(text[i]);
      AlnumSurvives(text, i);
    }
  }

  /** Two words joined by one space collapse to the words joined by one
      hyphen, every other character kept in place. */
  lemma {:induction false} CollapseWords(d: Dialect, a: string, b: string)
    requires forall i :: 0 <= i < |a| ==> !IsSep(d, a[i])
    requires forall i :: 0 <= i < |b| ==> !IsSep(d, b[i])
    ensures Collapse(d, a + " " + b) == a + "-" + b
    decreases |a|
  {
    if a == [] {
      assert a + " " + b == " " + b;
      assert a + "-" + b == "-" + b;
      CollapseSpaceWord(d, b);
    } else {
      var s, tail := a + " " + b, a[1..] + " " + b;
      assert s == [a[0]] + tail;
      CollapseOtherStep(d, s);
      assert s[1..] == tail;
      CollapseWords(d, a[1..], b);
      assert a + "-" + b == [a[0]] + (a[1..] + "-" + b);
    }
  }

  /** One space before a word collapses to one hyphen before it. */
  lemma CollapseSpaceWord(d: Dialect, b: string)
    requires forall i :: 0 <= i < |b| ==> !IsSep(d, b[i])
    ensures Collapse(d, " " + b) == "-" + b
  {
    var s := " " + b;
    assert s[0] == ' ' && s[1..] == b;
    CollapseSepStep(d, s);
    assert DropSeps(d, b) == b;
    CollapseFixpoint(d, b);
  }

  /** The example of the slug helper: "Hello World!" becomes "hello-world",
      one stage of the pipeline at a time. */
  lemma HelloWorldSlug()
    ensures GenerateSlug("Hello World!") == "hello-world"
  {
    var text, words, joined := "Hello World!", "Hello World", "Hello-World";
    HelloWorldFiltered(text, words);
    HelloWorldCollapsed(words, joined);
    HelloWorldTrimmed(joined);
    HelloWorldLowered(joined);
  }

  /** The first replacement drops the '!' and keeps the rest in order. */
  lemma HelloWorldFiltered(text: string, words: string)
    requires text == "Hello World!" && words == "Hello World"
    ensures Filter(Pcre, text) == words
  {
    var bang := text[|words|..];
    assert text == words + bang;
    HelloWorldKept(words, bang);
    FilterKeepsPrefix(Pcre, words, bang);
  }

  lemma HelloWorldKept(words: string, bang: string)
    requires words == "Hello World" && bang == "!"
    ensures forall i :: 0 <= i < |words| ==> IsKept(Pcre, words[i])
    ensures forall i :: 0 <= i < |bang| ==> !IsKept(Pcre, bang[i])
  {
  }

  /** Kept characters followed by dropped ones filter to the kept part. */
  lemma FilterKeepsPrefix(d: Dialect, a: string, b: string)
    requires forall i :: 0 <= i < |a| ==> IsKept(d, a[i])
    requires forall i :: 0 <= i < |b| ==> !IsKept(d, b[i])
    ensures Filter(d, a + b) == a
  {
    FilterConcat(d, a, b);
    FilterFixpoint(d, a);
    FilterDropsAll(d, b);
  }

  /** The second replacement turns the space into one hyphen. */
  lemma HelloWorldCollapsed(words: string, joined: string)
    requires words == "Hello World" && joined == "Hello-World"
    ensures Collapse(Pcre, words) == joined
  {
    var hello, world := words[..5], words[6..];
    assert words == hello + " " + world;
    HelloWorldNoSep(hello, world);
    CollapseWords(Pcre, hello, world);
    assert hello + "-" + world == joined;
  }

  lemma HelloWorldNoSep(hello: string, world: string)
    requires hello == "Hello" && world == "World"
    ensures forall i :: 0 <= i < |hello| ==> !IsSep(Pcre, hello[i])
    ensures forall i :: 0 <= i < |world| ==> !IsSep(Pcre, world[i])
  {
  }

  /** The hyphen trim finds no hyphen at either end. */
  lemma HelloWorldTrimmed(c: string)
    requires c == "Hello-World"
    ensures TrimHyphens(c) == c
  {
    assert TrimLeadingHyphens(c) == c;
    assert TrimTrailingHyphens(c) == c;
  }

  /** Lower-casing changes the two capitals only. */
  lemma HelloWorldLowered(c: string)
    requires c == "Hello-World"
    ensures AsciiLower(c) == "hello-world"
  {
    LowerEach(c, "hello-world");
  }

  /** `AsciiLower` is fixed by what it does to each character. */
  lemma LowerEach(w: string, l: string)
    requires |w| == |l| && forall i :: 0 <= i < |w| ==> LowerChar(w[i]) == l[i]
    ensures AsciiLower(w) == l
  {
  }
}
