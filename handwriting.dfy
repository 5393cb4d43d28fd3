/** The recipe-name normaliser `parse_handwriting` of the cookbook service.

    The source runs four steps: it turns every `-` and every `_` into a space,
    deletes every character that is neither an ASCII letter nor a space,
    lower-cases and strips the rest, and, unless nothing is left, splits it into
    words, capitalises each word and joins them with single spaces.

    Each regular-expression substitution and string method becomes an explicit
    function over `seq<char>`.  Once the deletion step has run only ASCII letters
    and spaces remain, so `lower`, `strip`, `split` and `capitalize` are modelled
    on that alphabet only. */
module Handwriting {

  import opened Options

  // ---------------------------------------------------------------------------
  // Characters

  predicate IsAsciiUpper(c: char) { 'A' <= c <= 'Z' }

  predicate IsAsciiLower(c: char) { 'a' <= c <= 'z' }

  predicate IsAsciiLetter(c: char) { IsAsciiUpper(c) || IsAsciiLower(c) }

  /** The characters the class `[a-zA-Z ]` keeps. */
  predicate IsNameChar(c: char) { IsAsciiLetter(c) || c == ' ' }

  /** `str.lower` on one ASCII character. */
  function ToLower(c: char): (d: char)
    ensures IsAsciiLetter(c) ==> IsAsciiLower(d)
    ensures IsAsciiLetter(d) <==> IsAsciiLetter(c)
    ensures !IsAsciiUpper(c) ==> d == c
  {
    if IsAsciiUpper(c) then (c as int + 32) as char else c
  }

  /** How `str.capitalize` changes the first character of an ASCII word. */
  function ToUpper(c: char): (d: char)
    ensures IsAsciiLetter(c) ==> IsAsciiUpper(d)
    ensures !IsAsciiLower(c) ==> d == c
  {
    if IsAsciiLower(c) then (c as int - 32) as char else c
  }

  /** Lower-casing an upper-case letter and upper-casing a lower-case one are inverse. */
  lemma CaseRoundTrip(c: char)
    ensures IsAsciiUpper(c) ==> ToUpper(ToLower(c)) == c
    ensures IsAsciiLower(c) ==> ToLower(ToUpper(c)) == c
  {
  }

  /** No character of `s` is an ASCII letter. */
  predicate NoLetter(s: string)
  {
    forall i :: 0 <= i < |s| ==> !IsAsciiLetter(s[i])
  }

  // ---------------------------------------------------------------------------
  // The steps of the normaliser

  /** `re.sub(c, ' ', s)` for a pattern that is the single literal character `c`. */
  function SpaceFor(s: string, c: char): (r: string)
    ensures |r| == |s|
    ensures forall i :: 0 <= i < |s| ==> r[i] == if s[i] == c then ' ' else s[i]
  {
    if s == [] then [] else [if s[0] == c then ' ' else s[0]] + SpaceFor(s[1..], c)
  }

  /** `re.sub('[^a-zA-Z ]', '', s)`: every character outside the class is deleted. */
  function KeepNameChars(s: string): (r: string)
    ensures forall i :: 0 <= i < |r| ==> IsNameChar(r[i])
  {
    if s == [] then []
    else (if IsNameChar(s[0]) then [s[0]] else []) + KeepNameChars(s[1..])
  }

  /** `str.lower` on a string. */
  function LowerCase(s: string): (r: string)
    ensures |r| == |s|
    ensures forall i :: 0 <= i < |s| ==> r[i] == ToLower(s[i])
  {
    if s == [] then [] else [ToLower(s[0])] + LowerCase(s[1..])
  }

  /** Drops the leading spaces. */
  function TrimLeft(s: string): (r: string)
    ensures |r| <= |s| && r == s[|s| - |r|..]
    ensures r == [] || r[0] != ' '
    ensures forall i :: 0 <= i < |s| - |r| ==> s[i] == ' '
  {
    if s != [] && s[0] == ' ' then TrimLeft(s[1..]) else s
  }

  /** Drops the trailing spaces. */
  function TrimRight(s: string): (r: string)
    ensures |r| <= |s| && r == s[..|r|]
    ensures r == [] || r[|r| - 1] != ' '
    ensures forall i :: |r| <= i < |s| ==> s[i] == ' '
  {
    if s != [] && s[|s| - 1] == ' ' then TrimRight(s[..|s| - 1]) else s
  }

  /** `str.strip` on a string whose only whitespace is the space. */
  function Strip(s: string): string
  {
    TrimRight(TrimLeft(s))
  }

  /** The longest prefix of `s` that holds no space. */
  function TakeWord(s: string): (w: string)
    ensures |w| <= |s| && w == s[..|w|]
    ensures forall i :: 0 <= i < |w| ==> w[i] != ' '
    ensures |w| < |s| ==> s[|w|] == ' '
  {
    if s == [] || s[0] == ' ' then [] else [s[0]] + TakeWord(s[1..])
  }

  /** `str.split()` on a string whose only whitespace is the space: the maximal
      runs of non-space characters, in order. */
  function Words(s: string): seq<string>
    decreases |s|
  {
    if s == [] then []
    else if s[0] == ' ' then Words(s[1..])
    else
      var w := TakeWord(s);
      [w] + Words(s[|w|..])
  }

  /** `str.capitalize` on an ASCII word: first character upper case, the rest lower case. */
  function Capitalize(w: string): string
  {
    if w == [] then [] else [ToUpper(w[0])] + LowerCase(w[1..])
  }

  /** The list comprehension that capitalises every word. */
  function CapitalizeAll(ws: seq<string>): (r: seq<string>)
    ensures |r| == |ws|
    ensures forall k :: 0 <= k < |ws| ==> r[k] == Capitalize(ws[k])
  {
    if ws == [] then [] else [Capitalize(ws[0])] + CapitalizeAll(ws[1..])
  }

  /** `' '.join(ws)`. */
  function JoinWords(ws: seq<string>): string
  {
    if |ws| == 0 then []
    else if |ws| == 1 then ws[0]
    else ws[0] + " " + JoinWords(ws[1..])
  }

  /** `parse_handwriting`: `None` when no valid character is left, otherwise the
      canonical form of the name. */
  function ParseHandwriting(recipeName: string): Option<string>
  {
    var cleaned := KeepNameChars(SpaceFor(SpaceFor(recipeName, '-'), '_'));
    var stripped := Strip(LowerCase(cleaned));
    if stripped == [] then None
    else Some(JoinWords(CapitalizeAll(Words(stripped))))
  }

  // ---------------------------------------------------------------------------
  // The shape of a normalised name

  /** Position `i` of `r` begins a word. */
  predicate StartsWord(r: string, i: int)
    requires 0 <= i < |r|
  {
    i == 0 || r[i - 1] == ' '
  }

  /** Position `i` of `r` is a letter or a space; a space never begins a word
      (so there is no leading and no doubled space); a letter is upper case
      exactly when it begins a word. */
  predicate WellPlaced(r: string, i: int)
    requires 0 <= i < |r|
  {
    && IsNameChar(r[i])
    && (r[i] == ' ' ==> !StartsWord(r, i))
    && (IsAsciiUpper(r[i]) <==> StartsWord(r, i))
  }

  /** A canonical recipe name: ASCII-letter words separated by single spaces,
      no space at either end, each word upper case in its first letter and
      lower case in the others. */
  predicate IsCanonicalName(r: string)
  {
    && |r| > 0
    && r[0] != ' '
    && r[|r| - 1] != ' '
    && forall i :: 0 <= i < |r| ==> WellPlaced(r, i)
  }

  /** A word of the lower-cased, cleaned name. */
  predicate IsLowerWord(w: string)
  {
    |w| > 0 && forall i :: 0 <= i < |w| ==> IsAsciiLower(w[i])
  }

  /** A word of the result. */
  predicate IsCapitalizedWord(w: string)
  {
    && |w| > 0
    && IsAsciiUpper(w[0])
    && forall i :: 1 <= i < |w| ==> IsAsciiLower(w[i])
  }

  // ---------------------------------------------------------------------------
  // When the result is None

  lemma {:induction false} NoLetterConcat(a: string, b: string)
    ensures NoLetter(a + b) <==> NoLetter(a) && NoLetter(b)
  {
    if NoLetter(a) && NoLetter(b) {
      forall i | 0 <= i < |a + b| ensures !IsAsciiLetter((a + b)[i]) {
        if i >= |a| { assert (a + b)[i] == b[i - |a|]; }
      }
    }
    if NoLetter(a + b) {
      forall i | 0 <= i < |a| ensures !IsAsciiLetter(a[i]) {
        assert (a + b)[i] == a[i];
      }
      forall i | 0 <= i < |b| ensures !IsAsciiLetter(b[i]) {
        assert (a + b)[|a| + i] == b[i];
      }
    }
  }

  /** Deleting the characters outside `[a-zA-Z ]` deletes no letter. */
  lemma {:induction false} KeepNameCharsKeepsLetters(s: string)
    ensures NoLetter(KeepNameChars(s)) <==> NoLetter(s)
  {
    if s != [] {
      var head := if IsNameChar(s[0]) then [s[0]] else [];
      assert KeepNameChars(s) == head + KeepNameChars(s[1..]);
      KeepNameCharsKeepsLetters(s[1..]);
      NoLetterConcat(head, KeepNameChars(s[1..]));
      NoLetterConcat([s[0]], s[1..]);
      assert s == [s[0]] + s[1..];
    }
  }

  /** Stripping a string of letters and spaces leaves nothing exactly when it holds no letter. */
  lemma StripEmptyIffNoLetter(l: string)
    requires forall i :: 0 <= i < |l| ==> IsNameChar(l[i])
    ensures Strip(l) == [] <==> NoLetter(l)
  {
    var u := TrimLeft(l);
    if u != [] {
      assert u[0] == l[|l| - |u|];
      assert IsAsciiLetter(u[0]);
    }
  }

  /** `parse_handwriting` returns `None` exactly when the input holds no ASCII
      letter: separators, spaces and every other character cannot make a name. */
  lemma ParseNoneIffNoLetter(recipeName: string)
    ensures ParseHandwriting(recipeName) == None <==> NoLetter(recipeName)
  {
    var a := SpaceFor(recipeName, '-');
    var b := SpaceFor(a, '_');
    assert NoLetter(b) <==> NoLetter(recipeName) by {
      assert forall i :: 0 <= i < |b| ==> (IsAsciiLetter(b[i]) <==> IsAsciiLetter(recipeName[i]));
    }
    var c := KeepNameChars(b);
    KeepNameCharsKeepsLetters(b);
    var l := LowerCase(c);
    assert NoLetter(l) <==> NoLetter(c) by {
      assert forall i :: 0 <= i < |l| ==> (IsAsciiLetter(l[i]) <==> IsAsciiLetter(c[i]));
    }
    assert forall i :: 0 <= i < |l| ==> IsNameChar(l[i]) by {
      forall i | 0 <= i < |l| ensures IsNameChar(l[i]) {
        assert IsNameChar(c[i]);
      }
    }
    StripEmptyIffNoLetter(l);
  }

  // ---------------------------------------------------------------------------
  // A result is canonical

  /** The words of a string of lower-case letters and spaces are non-empty
      lower-case words. */
  lemma {:induction false} WordsAreLowerWords(s: string)
    requires forall i :: 0 <= i < |s| ==> IsAsciiLower(s[i]) || s[i] == ' '
    ensures forall k :: 0 <= k < |Words(s)| ==> IsLowerWord(Words(s)[k])
    decreases |s|
  {
    if s == [] {
    } else if s[0] == ' ' {
      WordsAreLowerWords(s[1..]);
    } else {
      var w := TakeWord(s);
      assert |w| > 0;
      assert IsLowerWord(w) by {
        forall i | 0 <= i < |w| ensures IsAsciiLower(w[i]) {
          assert w[i] == s[i];
        }
      }
      WordsAreLowerWords(s[|w|..]);
      assert Words(s) == [w] + Words(s[|w|..]);
    }
  }

  lemma CapitalizeLowerWord(w: string)
    requires IsLowerWord(w)
    ensures IsCapitalizedWord(Capitalize(w))
  {
    var c := Capitalize(w);
    assert c == [ToUpper(w[0])] + LowerCase(w[1..]);
    forall i | 1 <= i < |c| ensures IsAsciiLower(c[i]) {
      assert c[i] == ToLower(w[i]);
    }
  }

  lemma CapitalizedWordIsCanonical(w: string)
    requires IsCapitalizedWord(w)
    ensures IsCanonicalName(w)
  {
    forall i | 0 <= i < |w| ensures WellPlaced(w, i) {
      if i > 0 {
        assert IsAsciiLower(w[i]) && IsAsciiLetter(w[i - 1]);
      }
    }
  }

  /** One position of a capitalised word, a space and a canonical name. */
  lemma PrependWordAt(w: string, rest: string, i: int)
    requires IsCapitalizedWord(w) && IsCanonicalName(rest)
    requires 0 <= i < |w| + 1 + |rest|
    ensures WellPlaced(w + " " + rest, i)
  {
    var r := w + " " + rest;
    var n := |w|;
    if i < n {
      assert r[i] == w[i];
      if i > 0 {
        assert r[i - 1] == w[i - 1];
        assert IsAsciiLower(w[i]) && IsAsciiLetter(w[i - 1]);
      }
    } else if i == n {
      assert r[i] == ' ';
      assert r[i - 1] == w[n - 1];
      assert IsAsciiLetter(w[n - 1]);
    } else {
      var j := i - n - 1;
      assert r[i] == rest[j];
      assert WellPlaced(rest, j);
      if j == 0 {
        assert r[i - 1] == ' ';
      } else {
        assert r[i - 1] == rest[j - 1];
      }
    }
  }

  /** A capitalised word, a space and a canonical name make a canonical name. */
  lemma PrependWord(w: string, rest: string)
    requires IsCapitalizedWord(w) && IsCanonicalName(rest)
    ensures IsCanonicalName(w + " " + rest)
  {
    var r := w + " " + rest;
    assert r[0] == w[0];
    assert r[|r| - 1] == rest[|rest| - 1];
    forall i | 0 <= i < |r| ensures WellPlaced(r, i) {
      PrependWordAt(w, rest, i);
    }
  }

  /** Joining capitalised words with single spaces gives a canonical name. */
  lemma {:induction false} JoinCapitalizedIsCanonical(cs: seq<string>)
    requires |cs| > 0
    requires forall k :: 0 <= k < |cs| ==> IsCapitalizedWord(cs[k])
    ensures IsCanonicalName(JoinWords(cs))
  {
    if |cs| == 1 {
      CapitalizedWordIsCanonical(cs[0]);
    } else {
      JoinCapitalizedIsCanonical(cs[1..]);
      PrependWord(cs[0], JoinWords(cs[1..]));
    }
  }

  /** What the cleaning steps leave before the split: lower-case letters and
      spaces, beginning with a letter when anything is left. */
  lemma StrippedShape(recipeName: string)
    ensures var t := Strip(LowerCase(KeepNameChars(SpaceFor(SpaceFor(recipeName, '-'), '_'))));
      && (forall i :: 0 <= i < |t| ==> IsAsciiLower(t[i]) || t[i] == ' ')
      && (t == [] || t[0] != ' ')
  {
    var c := KeepNameChars(SpaceFor(SpaceFor(recipeName, '-'), '_'));
    var l := LowerCase(c);
    assert forall i :: 0 <= i < |l| ==> IsAsciiLower(l[i]) || l[i] == ' ' by {
      forall i | 0 <= i < |l| ensures IsAsciiLower(l[i]) || l[i] == ' ' {
        assert IsNameChar(c[i]);
      }
    }
    var u := TrimLeft(l);
    var t := TrimRight(u);
    forall i | 0 <= i < |t| ensures IsAsciiLower(t[i]) || t[i] == ' ' {
      assert t[i] == u[i] == l[|l| - |u| + i];
    }
    if t != [] { assert t[0] == u[0]; }
  }

  /** A result of `parse_handwriting` consists of ASCII-letter words, each
      capitalised, joined by single spaces with no space at either end. */
  lemma ParseYieldsCanonical(recipeName: string)
    ensures var r := ParseHandwriting(recipeName);
      r.Some? ==> IsCanonicalName(r.value)
  {
    var t := Strip(LowerCase(KeepNameChars(SpaceFor(SpaceFor(recipeName, '-'), '_'))));
    if t != [] {
      StrippedShape(recipeName);
      var ws := Words(t);
      assert ws == [TakeWord(t)] + Words(t[|TakeWord(t)|..]);
      WordsAreLowerWords(t);
      var cs := CapitalizeAll(ws);
      forall k | 0 <= k < |cs| ensures IsCapitalizedWord(cs[k]) {
        CapitalizeLowerWord(ws[k]);
      }
      JoinCapitalizedIsCanonical(cs);
    }
  }

  // ---------------------------------------------------------------------------
  // Canonical names are fixed points

  /** Lower-casing and capitalising the first word of a canonical name gives back that word. */
  lemma CapitalizeFirstWord(r: string, k: int)
    requires IsCanonicalName(r)
    requires 0 < k <= |r|
    requires forall i :: 0 <= i < k ==> r[i] != ' '
    ensures Capitalize(LowerCase(r)[..k]) == r[..k]
  {
    var w := LowerCase(r)[..k];
    var c := Capitalize(w);
    assert c == [ToUpper(w[0])] + LowerCase(w[1..]);
    assert WellPlaced(r, 0);
    CaseRoundTrip(r[0]);
    assert c[0] == r[0];
    forall j | 1 <= j < k ensures c[j] == r[j] {
      assert c[j] == ToLower(w[j]);
      assert WellPlaced(r, j);
      assert IsAsciiLower(r[j]);
    }
    assert c == r[..k];
  }

  /** The part of a canonical name after one of its spaces is canonical. */
  lemma CanonicalSuffix(r: string, k: int)
    requires IsCanonicalName(r)
    requires 0 <= k < |r| && r[k] == ' '
    ensures IsCanonicalName(r[k + 1..])
  {
    var rest := r[k + 1..];
    assert WellPlaced(r, k);
    assert k < |r| - 1;
    assert WellPlaced(r, k + 1);
    forall j | 0 <= j < |rest| ensures WellPlaced(rest, j) {
      assert rest[j] == r[k + 1 + j];
      assert WellPlaced(r, k + 1 + j);
      if j > 0 { assert rest[j - 1] == r[k + j]; }
    }
  }

  /** Lower-casing commutes with taking a suffix. */
  lemma LowerCaseSuffix(r: string, k: int)
    requires 0 <= k <= |r|
    ensures LowerCase(r)[k..] == LowerCase(r[k..])
  {
  }

  /** Joining a word in front of a non-empty list puts one space between. */
  lemma JoinCons(a: string, cs: seq<string>)
    requires |cs| > 0
    ensures JoinWords([a] + cs) == a + " " + JoinWords(cs)
  {
    assert ([a] + cs)[1..] == cs;
  }

  /** The words of a string that begins with a letter begin with its first word. */
  lemma WordsOfWordStart(s: string)
    requires s != [] && s[0] != ' '
    ensures |TakeWord(s)| > 0
    ensures Words(s) == [TakeWord(s)] + Words(s[|TakeWord(s)|..])
  {
  }

  /** The words of a string that begins with a space are those of the rest. */
  lemma WordsAfterSpace(s: string)
    requires s != [] && s[0] == ' '
    ensures Words(s) == Words(s[1..])
  {
  }

  /** Splitting, capitalising and joining rebuilds a canonical name from its
      lower-case form. */
  lemma {:induction false} RebuildCanonical(r: string)
    requires IsCanonicalName(r)
    ensures JoinWords(CapitalizeAll(Words(LowerCase(r)))) == r
    decreases |r|
  {
    var l := LowerCase(r);
    assert l[0] == ToLower(r[0]);
    WordsOfWordStart(l);
    var w := TakeWord(l);
    var k := |w|;
    assert forall i :: 0 <= i < k ==> r[i] != ' ' by {
      forall i | 0 <= i < k ensures r[i] != ' ' {
        assert w[i] == l[i] == ToLower(r[i]);
      }
    }
    CapitalizeFirstWord(r, k);
    if k == |l| {
      assert l[k..] == [];
      assert CapitalizeAll([w]) == [Capitalize(w)];
      assert r[..k] == r;
    } else {
      assert l[k] == ' ' == r[k];
      var rest := r[k + 1..];
      CanonicalSuffix(r, k);
      RebuildCanonical(rest);
      var lr := LowerCase(rest);
      WordsAfterSpace(l[k..]);
      LowerCaseSuffix(r, k + 1);
      assert l[k..][1..] == lr;
      assert lr[0] == ToLower(rest[0]);
      WordsOfWordStart(lr);
      var ws := Words(lr);
      var cs := CapitalizeAll(ws);
      assert CapitalizeAll([w] + ws) == [Capitalize(w)] + cs;
      JoinCons(Capitalize(w), cs);
      SplitAtSpace(r, k);
    }
  }

  lemma SplitAtSpace(r: string, k: int)
    requires 0 <= k < |r| && r[k] == ' '
    ensures r == r[..k] + " " + r[k + 1..]
  {
    assert r[k..] == [r[k]] + r[k + 1..];
    assert r == r[..k] + r[k..];
  }

  /** Turning a character into a space changes nothing where it does not occur. */
  lemma SpaceForAbsent(s: string, c: char)
    requires forall i :: 0 <= i < |s| ==> s[i] != c
    ensures SpaceFor(s, c) == s
  {
  }

  /** Stripping a string with no space at either end changes nothing. */
  lemma StripUntrimmed(l: string)
    requires l != [] && l[0] != ' ' && l[|l| - 1] != ' '
    ensures Strip(l) == l
  {
  }

  /** A canonical name is returned unchanged by `parse_handwriting`. */
  lemma CanonicalIsFixedPoint(r: string)
    requires IsCanonicalName(r)
    ensures ParseHandwriting(r) == Some(r)
  {
    assert forall i :: 0 <= i < |r| ==> IsNameChar(r[i]) by {
      forall i | 0 <= i < |r| ensures IsNameChar(r[i]) { assert WellPlaced(r, i); }
    }
    SpaceForAbsent(r, '-');
    SpaceForAbsent(r, '_');
    KeepNameCharsIdentity(r);
    var l := LowerCase(r);
    assert l[0] == ToLower(r[0]) && l[|l| - 1] == ToLower(r[|r| - 1]);
    StripUntrimmed(l);
    RebuildCanonical(r);
  }

  lemma {:induction false} KeepNameCharsIdentity(s: string)
    requires forall i :: 0 <= i < |s| ==> IsNameChar(s[i])
    ensures KeepNameChars(s) == s
  {
    if s != [] {
      assert IsNameChar(s[0]);
      KeepNameCharsIdentity(s[1..]);
      assert s == [s[0]] + s[1..];
    }
  }

  /** Deleting the characters outside `[a-zA-Z ]` keeps every letter and every
      space of the input, as often as it occurs, and nothing else. */
  lemma {:induction false} KeepNameCharsCounts(s: string)
    ensures forall ch :: multiset(KeepNameChars(s))[ch] == if IsNameChar(ch) then multiset(s)[ch] else 0
  {
    if s != [] {
      assert s == [s[0]] + s[1..];
      KeepNameCharsCounts(s[1..]);
    }
  }

  /** Deleting characters works piece by piece: the survivors of `a + b` are
      those of `a` followed by those of `b`, so deletion keeps the order. */
  lemma {:induction false} KeepNameCharsConcat(a: string, b: string)
    ensures KeepNameChars(a + b) == KeepNameChars(a) + KeepNameChars(b)
  {
    if a == [] {
      assert a + b == b;
    } else {
      assert (a + b)[0] == a[0] && (a + b)[1..] == a[1..] + b;
      KeepNameCharsConcat(a[1..], b);
    }
  }

  /** Normalising a normalised name changes nothing. */
  lemma ParseIdempotent(recipeName: string)
    ensures var r := ParseHandwriting(recipeName);
      r.Some? ==> ParseHandwriting(r.value) == r
  {
    ParseYieldsCanonical(recipeName);
    var r := ParseHandwriting(recipeName);
    if r.Some? {
      CanonicalIsFixedPoint(r.value);
    }
  }

  // ---------------------------------------------------------------------------
  // A result keeps the letters of the input

  /** The ASCII letters of `s`, in order. */
  function Letters(s: string): string
  {
    if s == [] then [] else (if IsAsciiLetter(s[0]) then [s[0]] else []) + Letters(s[1..])
  }

  lemma LettersCons(h: char, y: string)
    ensures Letters([h] + y) == (if IsAsciiLetter(h) then [h] else []) + Letters(y)
  {
    assert ([h] + y)[1..] == y;
  }

  lemma {:induction false} LettersConcat(a: string, b: string)
    ensures Letters(a + b) == Letters(a) + Letters(b)
  {
    if a != [] {
      assert (a + b)[1..] == a[1..] + b;
      LettersConcat(a[1..], b);
    } else {
      assert a + b == b;
    }
  }

  lemma {:induction false} LettersOfNoLetter(s: string)
    requires NoLetter(s)
    ensures Letters(s) == []
  {
    if s != [] {
      LettersOfNoLetter(s[1..]);
    }
  }

  lemma {:induction false} LettersSpaceFor(s: string, c: char)
    requires !IsAsciiLetter(c)
    ensures Letters(SpaceFor(s, c)) == Letters(s)
  {
    if s != [] {
      var h := if s[0] == c then ' ' else s[0];
      assert SpaceFor(s, c) == [h] + SpaceFor(s[1..], c);
      LettersCons(h, SpaceFor(s[1..], c));
      LettersSpaceFor(s[1..], c);
    }
  }

  lemma {:induction false} LettersKeepNameChars(s: string)
    ensures Letters(KeepNameChars(s)) == Letters(s)
  {
    if s != [] {
      var head := if IsNameChar(s[0]) then [s[0]] else [];
      assert KeepNameChars(s) == head + KeepNameChars(s[1..]);
      LettersConcat(head, KeepNameChars(s[1..]));
      if head != [] { LettersCons(s[0], []); }
      LettersKeepNameChars(s[1..]);
    }
  }

  lemma LowerCaseConcat(a: string, b: string)
    ensures LowerCase(a + b) == LowerCase(a) + LowerCase(b)
  {
    var x, y := LowerCase(a + b), LowerCase(a) + LowerCase(b);
    forall i | 0 <= i < |x| ensures x[i] == y[i] {
      if i < |a| { assert (a + b)[i] == a[i]; } else { assert (a + b)[i] == b[i - |a|]; }
    }
  }

  lemma {:induction false} LettersLowerCase(s: string)
    ensures Letters(LowerCase(s)) == LowerCase(Letters(s))
  {
    if s != [] {
      var head := if IsAsciiLetter(s[0]) then [s[0]] else [];
      assert LowerCase(s) == [ToLower(s[0])] + LowerCase(s[1..]);
      LettersCons(ToLower(s[0]), LowerCase(s[1..]));
      LettersLowerCase(s[1..]);
      LowerCaseConcat(head, Letters(s[1..]));
    }
  }

  lemma LettersTrimLeft(s: string)
    ensures Letters(TrimLeft(s)) == Letters(s)
  {
    var u := TrimLeft(s);
    var d := |s| - |u|;
    assert s == s[..d] + u;
    LettersOfNoLetter(s[..d]);
    LettersConcat(s[..d], u);
  }

  lemma LettersTrimRight(s: string)
    ensures Letters(TrimRight(s)) == Letters(s)
  {
    var t := TrimRight(s);
    assert s == t + s[|t|..];
    LettersOfNoLetter(s[|t|..]);
    LettersConcat(t, s[|t|..]);
  }

  lemma LettersStrip(s: string)
    ensures Letters(Strip(s)) == Letters(s)
  {
    LettersTrimLeft(s);
    LettersTrimRight(TrimLeft(s));
  }

  /** Capitalising a lower-case word and lower-casing it again gives the word back. */
  lemma LowerCaseCapitalize(w: string)
    requires IsLowerWord(w)
    ensures LowerCase(Capitalize(w)) == w
  {
    CaseRoundTrip(w[0]);
    LowerCaseConcat([ToUpper(w[0])], LowerCase(w[1..]));
    assert LowerCase(LowerCase(w[1..])) == w[1..];
    assert w == [w[0]] + w[1..];
  }

  lemma {:induction false} LowerCaseJoinCapitalized(ws: seq<string>)
    requires forall k :: 0 <= k < |ws| ==> IsLowerWord(ws[k])
    ensures LowerCase(JoinWords(CapitalizeAll(ws))) == JoinWords(ws)
  {
    if |ws| == 1 {
      LowerCaseCapitalize(ws[0]);
    } else if |ws| > 1 {
      var cs := CapitalizeAll(ws);
      assert cs[1..] == CapitalizeAll(ws[1..]);
      LowerCaseJoinCapitalized(ws[1..]);
      LowerCaseCapitalize(ws[0]);
      LowerCaseConcat(cs[0] + " ", JoinWords(cs[1..]));
      LowerCaseConcat(cs[0], " ");
    }
  }

  /** `split` followed by `join` drops only spaces. */
  lemma {:induction false} LettersJoinWords(t: string)
    ensures Letters(JoinWords(Words(t))) == Letters(t)
    decreases |t|
  {
    if t == [] {
    } else if t[0] == ' ' {
      WordsAfterSpace(t);
      LettersJoinWords(t[1..]);
      LettersCons(' ', t[1..]);
      assert t == [' '] + t[1..];
    } else {
      WordsOfWordStart(t);
      var w := TakeWord(t);
      var rest := t[|w|..];
      assert t == w + rest;
      LettersConcat(w, rest);
      LettersJoinWords(rest);
      if Words(rest) == [] {
        assert Words(t) == [w];
        assert Letters(rest) == [];
        assert w + [] == w;
      } else {
        JoinCons(w, Words(rest));
        LettersConcat(w + " ", JoinWords(Words(rest)));
        LettersConcat(w, " ");
        LettersCons(' ', []);
      }
    }
  }

  /** A result of `parse_handwriting` holds the letters of the input, in order
      and up to case: only the case of letters, the separators and the deleted
      characters differ. */
  lemma ParseKeepsLetters(recipeName: string)
    ensures var r := ParseHandwriting(recipeName);
      r.Some? ==> LowerCase(Letters(r.value)) == LowerCase(Letters(recipeName))
  {
    var a := SpaceFor(recipeName, '-');
    var b := SpaceFor(a, '_');
    var c := KeepNameChars(b);
    var l := LowerCase(c);
    var t := Strip(l);
    if t != [] {
      StrippedShape(recipeName);
      var ws := Words(t);
      WordsAreLowerWords(t);
      var out := JoinWords(CapitalizeAll(ws));
      LettersLowerCase(out);
      LowerCaseJoinCapitalized(ws);
      LettersJoinWords(t);
      LettersStrip(l);
      LettersLowerCase(c);
      LettersKeepNameChars(b);
      LettersSpaceFor(a, '_');
      LettersSpaceFor(recipeName, '-');
    }
  }

  // ---------------------------------------------------------------------------
  // A result keeps the word boundaries

  /** A non-empty word followed by nothing or by a space is the first word. */
  lemma TakeWordOfWord(w: string, rest: string)
    requires |w| > 0 && forall i :: 0 <= i < |w| ==> w[i] != ' '
    requires rest == [] || rest[0] == ' '
    ensures TakeWord(w + rest) == w
  {
    var s := w + rest;
    var t := TakeWord(s);
    assert t == s[..|w|] == w;
  }

  /** Splitting a string of spaces gives no word. */
  lemma {:induction false} WordsOfSpaces(b: string)
    requires forall i :: 0 <= i < |b| ==> b[i] == ' '
    ensures Words(b) == []
    decreases |b|
  {
    if b != [] {
      WordsAfterSpace(b);
      WordsOfSpaces(b[1..]);
    }
  }

  /** Trailing spaces add no word. */
  lemma {:induction false} WordsTrailingSpaces(a: string, b: string)
    requires forall i :: 0 <= i < |b| ==> b[i] == ' '
    ensures Words(a + b) == Words(a)
    decreases |a|
  {
    if a == [] {
      assert a + b == b;
      WordsOfSpaces(b);
    } else if a[0] == ' ' {
      assert (a + b)[1..] == a[1..] + b;
      WordsAfterSpace(a + b);
      WordsAfterSpace(a);
      WordsTrailingSpaces(a[1..], b);
    } else {
      var w := TakeWord(a);
      WordsOfWordStart(a);
      assert a == w + a[|w|..];
      var rest := a[|w|..] + b;
      assert a + b == w + rest;
      assert rest == [] || rest[0] == ' ';
      TakeWordOfWord(w, rest);
      WordsOfWordStart(a + b);
      assert (a + b)[|w|..] == rest;
      WordsTrailingSpaces(a[|w|..], b);
    }
  }

  /** Leading spaces add no word. */
  lemma {:induction false} WordsTrimLeft(s: string)
    ensures Words(TrimLeft(s)) == Words(s)
    decreases |s|
  {
    if s != [] && s[0] == ' ' {
      WordsAfterSpace(s);
      WordsTrimLeft(s[1..]);
    }
  }

  /** `strip` does not change the words `split` finds. */
  lemma WordsStrip(s: string)
    ensures Words(Strip(s)) == Words(s)
  {
    var u := TrimLeft(s);
    var t := TrimRight(u);
    assert u == t + u[|t|..];
    WordsTrailingSpaces(t, u[|t|..]);
    WordsTrimLeft(s);
  }

  /** Splitting words joined by single spaces gives the words back. */
  lemma {:induction false} WordsJoinWords(ws: seq<string>)
    requires forall k :: 0 <= k < |ws| ==> IsLowerWord(ws[k])
    ensures Words(JoinWords(ws)) == ws
  {
    if |ws| == 1 {
      var w := ws[0];
      assert w + [] == w;
      TakeWordOfWord(w, []);
      WordsOfWordStart(w);
      assert w[|w|..] == [];
    } else if |ws| > 1 {
      var w := ws[0];
      var tail := " " + JoinWords(ws[1..]);
      assert JoinWords(ws) == w + tail;
      TakeWordOfWord(w, tail);
      WordsOfWordStart(w + tail);
      assert (w + tail)[|w|..] == tail;
      WordsAfterSpace(tail);
      assert tail[1..] == JoinWords(ws[1..]);
      WordsJoinWords(ws[1..]);
    }
  }

  /** Where a result breaks into words: lower-cased, its words are exactly the
      words of the cleaned input, so `-`, `_` and the space each separate words
      and the deleted characters separate none. */
  lemma ParseKeepsWords(recipeName: string)
    ensures var r := ParseHandwriting(recipeName);
      r.Some? ==>
        Words(LowerCase(r.value))
          == Words(LowerCase(KeepNameChars(SpaceFor(SpaceFor(recipeName, '-'), '_'))))
  {
    var l := LowerCase(KeepNameChars(SpaceFor(SpaceFor(recipeName, '-'), '_')));
    var t := Strip(l);
    if t != [] {
      StrippedShape(recipeName);
      var ws := Words(t);
      WordsAreLowerWords(t);
      LowerCaseJoinCapitalized(ws);
      WordsJoinWords(ws);
      WordsStrip(l);
    }
  }

  /** A name made of blanks only is rejected. */
  lemma BlankNameRejected()
    ensures ParseHandwriting("   ") == None
  {
    assert NoLetter("   ");
    ParseNoneIffNoLetter("   ");
  }

  // The worked example below takes its input as a parameter fixed by `requires`:
  // stated on the literal directly, the verifier unfolds every step of every
  // recursive function at once.

  /** The hyphen of the example becomes a space. */
  lemma MinceMeatSeparator(s: string)
    requires s == "mince-meat!!"
    ensures SpaceFor(s, '-') == "mince meat!!"
  {
    var a := SpaceFor(s, '-');
    assert forall i :: 0 <= i < 12 ==> a[i] == "mince meat!!"[i];
  }

  /** Punctuation alone leaves nothing. */
  lemma MinceMeatPunctuation(s: string)
    requires s == "!!"
    ensures KeepNameChars(s) == []
  {
    assert !IsNameChar(s[0]) && !IsNameChar(s[1]);
    assert KeepNameChars(s[1..]) == [] by {
      assert s[1..][1..] == [];
    }
  }

  /** The trailing punctuation of the example is deleted. */
  lemma MinceMeatCleaned(s: string)
    requires s == "mince meat!!"
    ensures KeepNameChars(s) == "mince meat"
  {
    var kept, bang := s[..10], s[10..];
    assert s == kept + bang;
    KeepNameCharsConcat(kept, bang);
    assert forall i :: 0 <= i < |kept| ==> IsNameChar(kept[i]);
    KeepNameCharsIdentity(kept);
    MinceMeatPunctuation(bang);
  }

  /** Lower-casing and stripping leave the cleaned example as it is. */
  lemma MinceMeatStripped(s: string)
    requires s == "mince meat"
    ensures Strip(LowerCase(s)) == s
  {
    var l := LowerCase(s);
    assert forall i :: 0 <= i < 10 ==> l[i] == s[i];
    StripUntrimmed(l);
  }

  /** The cleaned example splits into two words. */
  lemma MinceMeatWords(s: string)
    requires s == "mince meat"
    ensures Words(s) == ["mince", "meat"]
  {
    var ws := ["mince", "meat"];
    assert JoinWords(ws) == s;
    assert IsLowerWord(ws[0]) && IsLowerWord(ws[1]);
    WordsJoinWords(ws);
  }

  /** The two words, capitalised and joined. */
  lemma MinceMeatJoined(ws: seq<string>)
    requires ws == ["mince", "meat"]
    ensures JoinWords(CapitalizeAll(ws)) == "Mince Meat"
  {
    assert Capitalize(ws[0]) == "Mince";
    assert Capitalize(ws[1]) == "Meat";
  }

  /** A name typed with a hyphen and trailing punctuation: the hyphen separates
      two words, the punctuation is dropped and each word is capitalised. */
  lemma MinceMeatNormalised(recipeName: string)
    requires recipeName == "mince-meat!!"
    ensures ParseHandwriting(recipeName) == Some("Mince Meat")
  {
    MinceMeatSeparator(recipeName);
    var spaced := SpaceFor(recipeName, '-');
    SpaceForAbsent(spaced, '_');
    MinceMeatCleaned(spaced);
    var cleaned := KeepNameChars(SpaceFor(spaced, '_'));
    MinceMeatStripped(cleaned);
    MinceMeatWords(cleaned);
    MinceMeatJoined(Words(cleaned));
  }

  /** The output is exactly the set of canonical names: a string is a possible
      result if and only if it is canonical. */
  lemma CanonicalIffFixedPoint(r: string)
    ensures ParseHandwriting(r) == Some(r) <==> IsCanonicalName(r)
  {
    ParseYieldsCanonical(r);
    if IsCanonicalName(r) {
      CanonicalIsFixedPoint(r);
    }
  }
}
