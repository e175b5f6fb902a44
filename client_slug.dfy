/**
 * The browser's `generateSlug` (assets/js/main.js), which fills the slug
 * field while the administrator types a section name:
 *   text.toLowerCase().trim()
 *       .replace(/[^a-z0-9\s-]/g, '').replace(/[\s-]+/g, '-')
 *       .replace(/^-+|-+$/g, '')
 * It lower-cases first and trims white space before filtering, where the
 * server filters first and lower-cases last; on ASCII text both produce the
 * same slug.
 */
module ClientSlug {
  import opened Php
  import opened Slug

  /** `String.prototype.trim`: strips ECMAScript white space and line
      terminators, which is exactly the ECMAScript `\s` class. */
  function JsTrimStart(s: string): (r: string)
    ensures |r| <= |s| && r == s[|s| - |r|..]
    ensures forall i :: 0 <= i < |s| - |r| ==> IsSpace(EcmaScript, s[i])
    ensures r == [] || !IsSpace(EcmaScript, r[0])
  {
    if |s| > 0 && IsSpace(EcmaScript, s[0]) then JsTrimStart(s[1..]) else s
  }

  function JsTrimEnd(s: string): (r: string)
    ensures |r| <= |s| && r == s[..|r|]
    ensures forall i :: |r| <= i < |s| ==> IsSpace(EcmaScript, s[i])
    ensures r == [] || !IsSpace(EcmaScript, r[|r| - 1])
  {
    if |s| > 0 && IsSpace(EcmaScript, s[|s| - 1]) then JsTrimEnd(s[..|s| - 1]) else s
  }

  /** `String.prototype.trim`: no white space is left at either end. */
  function JsTrim(s: string): (r: string)
    ensures r == [] || (!IsSpace(EcmaScript, r[0]) && !IsSpace(EcmaScript, r[|r| - 1]))
    ensures |r| <= |s|
  {
    var t := JsTrimStart(s);
    var r := JsTrimEnd(t);
    assert r == [] || r[0] == t[0];
    r
  }

  /** `r` is the slice of `s` at `k` with only white space on either side. */
  predicate SpaceTrimmedSlice(s: string, k: nat, r: string)
  {
    k + |r| <= |s| && r == s[k..k + |r|] &&
    (forall i :: 0 <= i < k ==> IsSpace(EcmaScript, s[i])) &&
    (forall i :: k + |r| <= i < |s| ==> IsSpace(EcmaScript, s[i]))
  }

  /** `trim()` removes only white space, and only at the two ends: the result is
      the middle slice of `s` that starts where `JsTrimStart` stopped. */
  lemma JsTrimKeepsMiddle(s: string)
    ensures SpaceTrimmedSlice(s, |s| - |JsTrimStart(s)|, JsTrim(s))
  {
    var t := JsTrimStart(s);
    var r := JsTrimEnd(t);
    assert JsTrim(s) == r;
    EndsSpaceTrimmed(s, t, r);
  }

  lemma EndsSpaceTrimmed(s: string, t: string, r: string)
    requires |t| <= |s| && t == s[|s| - |t|..]
    requires forall i :: 0 <= i < |s| - |t| ==> IsSpace(EcmaScript, s[i])
    requires |r| <= |t| && r == t[..|r|]
    requires forall i :: |r| <= i < |t| ==> IsSpace(EcmaScript, t[i])
    ensures SpaceTrimmedSlice(s, |s| - |t|, r)
  {
    var k := |s| - |t|;
    PrefixOfSuffix(s, t, r);
    forall i | k + |r| <= i < |s|
      ensures IsSpace(EcmaScript, s[i])
    {
      assert s[i] == t[i - k];
    }
  }

  /** The client-side slug.  `toLowerCase` is modelled on ASCII letters. */
  function JsGenerateSlug(text: string): (r: string)
    ensures IsSlug(r)
  {
    var trimmed := JsTrim(AsciiLower(text));
    CollapsedIsAlnumOrHyphen(EcmaScript, trimmed);
    var r := TrimHyphens(Collapse(EcmaScript, Filter(EcmaScript, trimmed)));
    assert forall i :: 0 <= i < |r| ==> r[i] in r;
    r
  }

  // ---------------------------------------------------------------------------
  // Idempotence

  lemma SlugHasNoSpace(s: string)
    requires IsSlug(s)
    ensures JsTrim(s) == s
    ensures forall i :: 0 <= i < |s| ==> !IsSpace(EcmaScript, s[i]) && IsKept(EcmaScript, s[i])
  {
    forall i | 0 <= i < |s| ensures !IsSpace(EcmaScript, s[i]) && IsKept(EcmaScript, s[i]) {
      SpaceClasses(s[i]);
    }
  }

  lemma JsSlugFixpoint(s: string)
    requires IsSlug(s)
    ensures JsGenerateSlug(s) == s
  {
    SlugIsLower(s);
    SlugHasNoSpace(s);
    FilterFixpoint(EcmaScript, s);
    CollapseFixpoint(EcmaScript, s);
    SlugIsTrimmed(s);
  }

  lemma JsGenerateSlugIdempotent(text: string)
    ensures JsGenerateSlug(JsGenerateSlug(text)) == JsGenerateSlug(text)
  {
    JsSlugFixpoint(JsGenerateSlug(text));
  }

  // ---------------------------------------------------------------------------
  // Leading and trailing separators never reach the slug

  lemma TrimHyphensOfLeadingHyphen(x: string)
    ensures TrimHyphens("-" + x) == TrimHyphens(x)
  {
    assert ("-" + x)[1..] == x;
  }

  lemma {:induction false} TrimLeadingOfTrailingHyphen(x: string)
    ensures TrimLeadingHyphens(x + "-") ==
      if TrimLeadingHyphens(x) == [] then [] else TrimLeadingHyphens(x) + "-"
  {
    if x == [] {
      assert TrimLeadingHyphens("-") == TrimLeadingHyphens([]);
    } else if x[0] == '-' {
      assert (x + "-")[1..] == x[1..] + "-";
      TrimLeadingOfTrailingHyphen(x[1..]);
    }
  }

  lemma TrimHyphensOfTrailingHyphen(x: string)
    ensures TrimHyphens(x + "-") == TrimHyphens(x)
  {
    TrimLeadingOfTrailingHyphen(x);
    var t := TrimLeadingHyphens(x);
    if t != [] {
      assert (t + "-")[..|t|] == t;
    }
  }

  lemma {:induction false} DropSepsOfSeps(d: Dialect, s: string)
    requires forall i :: 0 <= i < |s| ==> IsSep(d, s[i])
    ensures DropSeps(d, s) == []
  {
    if s != [] {
      DropSepsOfSeps(d, s[1..]);
    }
  }

  lemma {:induction false} DropSepsAppend(d: Dialect, a: string, b: string)
    ensures DropSeps(d, a) != [] ==> DropSeps(d, a + b) == DropSeps(d, a) + b
    ensures DropSeps(d, a) == [] ==> DropSeps(d, a + b) == DropSeps(d, b)
  {
    if a != [] {
      assert (a + b)[0] == a[0];
      if IsSep(d, a[0]) {
        assert (a + b)[1..] == a[1..] + b;
        DropSepsAppend(d, a[1..], b);
      }
    } else {
      assert a + b == b;
    }
  }

  lemma LeadingSepDropped(d: Dialect, c: char, z: string)
    requires IsSep(d, c)
    ensures TrimHyphens(Collapse(d, [c] + z)) == TrimHyphens(Collapse(d, z))
  {
    assert ([c] + z)[1..] == z;
    if z == [] {
      assert Collapse(d, [c]) == "-";
    } else if IsSep(d, z[0]) {
      assert DropSeps(d, z) == DropSeps(d, z[1..]);
    } else {
      TrimHyphensOfLeadingHyphen(Collapse(d, z));
    }
  }

  /** Appending one separator adds at most one trailing hyphen. */
  lemma {:induction false} CollapseSnocSep(d: Dialect, z: string, c: char)
    requires IsSep(d, c)
    ensures Collapse(d, z + [c]) == Collapse(d, z) || Collapse(d, z + [c]) == Collapse(d, z) + "-"
    decreases |z|, 1
  {
    var w := z + [c];
    if z == [] {
      assert w == [c] && w[1..] == [];
      CollapseSepStep(d, w);
    } else if IsSep(d, z[0]) {
      CollapseSnocSepSepHead(d, z, c);
    } else {
      CollapseSnocSepOtherHead(d, z, c);
    }
  }

  lemma {:induction false} CollapseSnocSepSepHead(d: Dialect, z: string, c: char)
    requires IsSep(d, c) && z != [] && IsSep(d, z[0])
    ensures Collapse(d, z + [c]) == Collapse(d, z) || Collapse(d, z + [c]) == Collapse(d, z) + "-"
    decreases |z|, 0
  {
    var w := z + [c];
    assert w[0] == z[0] && w[1..] == z[1..] + [c];
    var rest := DropSeps(d, z[1..]);
    var x := Collapse(d, rest);
    CollapseSepStep(d, w);
    CollapseSepStep(d, z);
    assert Collapse(d, z) == "-" + x;
    DropSepsAppend(d, z[1..], [c]);
    if rest == [] {
      DropSepsOfSeps(d, [c]);
      assert DropSeps(d, w[1..]) == [];
      assert Collapse(d, w) == "-" == Collapse(d, z);
    } else {
      assert DropSeps(d, w[1..]) == rest + [c];
      CollapseSnocSep(d, rest, c);
      HyphenThenSnoc(x, Collapse(d, rest + [c]));
    }
  }

  lemma HyphenThenSnoc(x: string, y: string)
    requires y == x || y == x + "-"
    ensures "-" + y == "-" + x || "-" + y == ("-" + x) + "-"
  {
    if y != x {
      assert "-" + (x + "-") == ("-" + x) + "-";
    }
  }

  lemma {:induction false} CollapseSnocSepOtherHead(d: Dialect, z: string, c: char)
    requires IsSep(d, c) && z != [] && !IsSep(d, z[0])
    ensures Collapse(d, z + [c]) == Collapse(d, z) || Collapse(d, z + [c]) == Collapse(d, z) + "-"
    decreases |z|, 0
  {
    var w := z + [c];
    assert w[0] == z[0] && w[1..] == z[1..] + [c];
    CollapseOtherStep(d, w);
    CollapseOtherStep(d, z);
    CollapseSnocSep(d, z[1..], c);
    var x := Collapse(d, z[1..]);
    assert ([z[0]] + x) + "-" == [z[0]] + (x + "-");
  }

  lemma TrailingSepDropped(d: Dialect, z: string, c: char)
    requires IsSep(d, c)
    ensures TrimHyphens(Collapse(d, z + [c])) == TrimHyphens(Collapse(d, z))
  {
    CollapseSnocSep(d, z, c);
    TrimHyphensOfTrailingHyphen(Collapse(d, z));
  }

  function Slugged(d: Dialect, s: string): string
  {
    TrimHyphens(Collapse(d, Filter(d, s)))
  }

  lemma {:induction false} TrimStartInvisible(s: string)
    ensures Slugged(EcmaScript, JsTrimStart(s)) == Slugged(EcmaScript, s)
  {
    if |s| > 0 && IsSpace(EcmaScript, s[0]) {
      var c := s[0];
      var f := Filter(EcmaScript, s[1..]);
      assert IsSep(EcmaScript, c) && IsKept(EcmaScript, c);
      assert JsTrimStart(s) == JsTrimStart(s[1..]);
      assert Filter(EcmaScript, s) == [c] + f;
      TrimStartInvisible(s[1..]);
      LeadingSepDropped(EcmaScript, c, f);
    }
  }

  lemma {:induction false} TrimEndInvisible(s: string)
    ensures Slugged(EcmaScript, JsTrimEnd(s)) == Slugged(EcmaScript, s)
  {
    if |s| > 0 && IsSpace(EcmaScript, s[|s| - 1]) {
      var c := s[|s| - 1];
      var init := s[..|s| - 1];
      assert IsSep(EcmaScript, c) && IsKept(EcmaScript, c);
      assert JsTrimEnd(s) == JsTrimEnd(init);
      assert s == init + [c];
      FilterConcat(EcmaScript, init, [c]);
      assert Filter(EcmaScript, [c]) == [c] + Filter(EcmaScript, []);
      assert Filter(EcmaScript, s) == Filter(EcmaScript, init) + [c];
      TrimEndInvisible(init);
      TrailingSepDropped(EcmaScript, Filter(EcmaScript, init), c);
    }
  }

  // ---------------------------------------------------------------------------
  // On ASCII the two dialects agree, and lower-casing commutes with each step

  lemma {:induction false} FilterDialectsAgree(s: string)
    requires forall i :: 0 <= i < |s| ==> IsAscii(s[i]) && !IsUpper(s[i])
    ensures Filter(Pcre, s) == Filter(EcmaScript, s)
  {
    if s != [] {
      FilterDialectsAgree(s[1..]);
    }
  }

  lemma {:induction false} DropSepsDialectsAgree(s: string)
    requires forall i :: 0 <= i < |s| ==> IsAscii(s[i])
    ensures DropSeps(Pcre, s) == DropSeps(EcmaScript, s)
  {
    if s != [] {
      SpaceClasses(s[0]);
      DropSepsDialectsAgree(s[1..]);
    }
  }

  lemma {:induction false} CollapseDialectsAgree(s: string)
    requires forall i :: 0 <= i < |s| ==> IsAscii(s[i])
    ensures Collapse(Pcre, s) == Collapse(EcmaScript, s)
    decreases |s|
  {
    if s != [] {
      if IsSep(Pcre, s[0]) {
        DropSepsDialectsAgree(s[1..]);
        CollapseDialectsAgree(DropSeps(Pcre, s[1..]));
      } else {
        CollapseDialectsAgree(s[1..]);
      }
    }
  }

  lemma {:induction false} LowerFilter(s: string)
    ensures AsciiLower(Filter(Pcre, s)) == Filter(Pcre, AsciiLower(s))
  {
    if s != [] {
      assert AsciiLower(s)[1..] == AsciiLower(s[1..]);
      LowerFilter(s[1..]);
    }
  }

  lemma {:induction false} LowerDropSeps(d: Dialect, s: string)
    ensures AsciiLower(DropSeps(d, s)) == DropSeps(d, AsciiLower(s))
  {
    if s != [] {
      assert AsciiLower(s)[1..] == AsciiLower(s[1..]);
      SpaceClasses(s[0]);
      LowerDropSeps(d, s[1..]);
    }
  }

  lemma {:induction false} LowerCollapse(d: Dialect, s: string)
    ensures AsciiLower(Collapse(d, s)) == Collapse(d, AsciiLower(s))
    decreases |s|
  {
    if s != [] {
      var ls := AsciiLower(s);
      assert ls[0] == LowerChar(s[0]);
      assert ls[1..] == AsciiLower(s[1..]);
      SpaceClasses(s[0]);
      if IsSep(d, s[0]) {
        var rest := DropSeps(d, s[1..]);
        LowerCollapse(d, rest);
        LowerDropSeps(d, s[1..]);
        AsciiLowerConcat("-", Collapse(d, rest));
        calc {
          AsciiLower(Collapse(d, s));
          AsciiLower("-" + Collapse(d, rest));
          AsciiLower("-") + AsciiLower(Collapse(d, rest));
          { assert AsciiLower("-") == "-" by {
              assert |AsciiLower("-")| == 1 && AsciiLower("-")[0] == LowerChar('-') == '-';
            } }
          "-" + Collapse(d, AsciiLower(rest));
          "-" + Collapse(d, DropSeps(d, ls[1..]));
          Collapse(d, ls);
        }
      } else {
        LowerCollapse(d, s[1..]);
        AsciiLowerConcat([s[0]], Collapse(d, s[1..]));
        calc {
          AsciiLower(Collapse(d, s));
          AsciiLower([s[0]] + Collapse(d, s[1..]));
          AsciiLower([s[0]]) + AsciiLower(Collapse(d, s[1..]));
          { assert AsciiLower([s[0]]) == [ls[0]]; }
          [ls[0]] + Collapse(d, ls[1..]);
          Collapse(d, ls);
        }
      }
    }
  }

  lemma {:induction false} LowerTrimLeading(s: string)
    ensures AsciiLower(TrimLeadingHyphens(s)) == TrimLeadingHyphens(AsciiLower(s))
  {
    if s != [] {
      assert AsciiLower(s)[1..] == AsciiLower(s[1..]);
      LowerTrimLeading(s[1..]);
    }
  }

  lemma {:induction false} LowerTrimTrailing(s: string)
    ensures AsciiLower(TrimTrailingHyphens(s)) == TrimTrailingHyphens(AsciiLower(s))
  {
    if s != [] {
      var init := s[..|s| - 1];
      var ls := AsciiLower(s);
      assert ls[..|s| - 1] == AsciiLower(init);
      assert ls[|s| - 1] == LowerChar(s[|s| - 1]);
      if s[|s| - 1] == '-' {
        LowerTrimTrailing(init);
        assert TrimTrailingHyphens(s) == TrimTrailingHyphens(init);
        assert TrimTrailingHyphens(ls) == TrimTrailingHyphens(AsciiLower(init));
      } else {
        assert ls[|s| - 1] != '-';
      }
    }
  }

  lemma LowerTrimHyphens(s: string)
    ensures AsciiLower(TrimHyphens(s)) == TrimHyphens(AsciiLower(s))
  {
    LowerTrimLeading(s);
    LowerTrimTrailing(TrimLeadingHyphens(s));
  }

  /** For ASCII text the browser proposes exactly the slug the server would
      derive from the same name. */
  lemma ClientAgreesWithServer(text: string)
    requires forall i :: 0 <= i < |text| ==> IsAscii(text[i])
    ensures JsGenerateSlug(text) == GenerateSlug(text)
  {
    var lower := AsciiLower(text);
    assert forall i :: 0 <= i < |lower| ==> IsAscii(lower[i]) && !IsUpper(lower[i]);
    var kept := Filter(Pcre, lower);
    assert forall i :: 0 <= i < |kept| ==> kept[i] in kept;
    var raw := Filter(Pcre, text);
    calc {
      JsGenerateSlug(text);
      Slugged(EcmaScript, JsTrimEnd(JsTrimStart(lower)));
      { TrimEndInvisible(JsTrimStart(lower)); }
      Slugged(EcmaScript, JsTrimStart(lower));
      { TrimStartInvisible(lower); }
      TrimHyphens(Collapse(EcmaScript, Filter(EcmaScript, lower)));
      { FilterDialectsAgree(lower); }
      TrimHyphens(Collapse(EcmaScript, kept));
      { CollapseDialectsAgree(kept); }
      TrimHyphens(Collapse(Pcre, kept));
      { LowerFilter(text); }
      TrimHyphens(Collapse(Pcre, AsciiLower(raw)));
      { LowerCollapse(Pcre, raw); }
      TrimHyphens(AsciiLower(Collapse(Pcre, raw)));
      { LowerTrimHyphens(Collapse(Pcre, raw)); }
      AsciiLower(TrimHyphens(Collapse(Pcre, raw)));
      GenerateSlug(text);
    }
  }

  /** The browser's preview of the same example: "Hello World!" becomes
      "hello-world" there too. */
  lemma JsHelloWorldSlug()
    ensures JsGenerateSlug("Hello World!") == "hello-world"
  {
    var text := "Hello World!";
    HelloWorldAscii(text);
    ClientAgreesWithServer(text);
    HelloWorldSlug();
  }

  lemma HelloWorldAscii(text: string)
    requires text == "Hello World!"
    ensures forall i :: 0 <= i < |text| ==> IsAscii(text[i])
  {
  }
}
