/**
 * Username derivation from a display name: the pure part of
 * `felhasznalonev_generalas` in backend/users.py.
 *
 * The pipeline is  fold (unidecode, a parameter)  ->  Lower  ->  KeepAllowed
 * (`re.sub(r'[^a-z\s]', '', ...)`)  ->  Strip  ->  Split  ->  BaseHandle  ->
 * ReplaceSpaces  ->  base + str(suffix).
 */
module Names {

  /** Whitespace as Python's `str.isspace`, `str.strip`, `str.split` and `\s` in a
      str pattern see it. */
  predicate IsSpace(c: char) {
    || ('\t' <= c <= '\r')
    || ('\U{1c}' <= c <= '\U{1f}')
    || c == ' '
    || c == '\U{85}'
    || c == '\U{a0}'
    || c == '\U{1680}'
    || ('\U{2000}' <= c <= '\U{200a}')
    || c == '\U{2028}'
    || c == '\U{2029}'
    || c == '\U{202f}'
    || c == '\U{205f}'
    || c == '\U{3000}'
  }

  predicate IsLowerLetter(c: char) { 'a' <= c <= 'z' }

  predicate IsUpperLetter(c: char) { 'A' <= c <= 'Z' }

  /** The characters the pattern `[^a-z\s]` does not remove. */
  predicate IsAllowed(c: char) { IsLowerLetter(c) || IsSpace(c) }

  /** A token of a normalized name: a non-empty run of `a-z`. */
  predicate IsWord(w: string) {
    |w| > 0 && forall k :: 0 <= k < |w| ==> IsLowerLetter(w[k])
  }

  predicate NoSpace(s: string) {
    forall k :: 0 <= k < |s| ==> !IsSpace(s[k])
  }

  // ---------------------------------------------------------------------------
  // Lowercasing (`.lower()` on the ASCII output of unidecode)

  function LowerChar(c: char): char {
    if IsUpperLetter(c) then (c as int + 32) as char else c
  }

  function Lower(s: string): (r: string)
    ensures |r| == |s|
    ensures forall k :: 0 <= k < |r| ==> !IsUpperLetter(r[k])
    ensures forall k :: 0 <= k < |r| ==>
              (IsLowerLetter(r[k]) <==> IsLowerLetter(s[k]) || IsUpperLetter(s[k]))
    ensures forall k :: 0 <= k < |s| && IsUpperLetter(s[k]) ==>
              r[k] as int - 'a' as int == s[k] as int - 'A' as int
    ensures forall k :: 0 <= k < |r| && !IsUpperLetter(s[k]) ==> r[k] == s[k]
  {
    seq(|s|, k requires 0 <= k < |s| => LowerChar(s[k]))
  }

  /** Lowercasing twice is lowercasing once. */
  lemma LowerIdempotent(s: string)
    ensures Lower(Lower(s)) == Lower(s)
  {
    LowerOfLowercase(Lower(s));
  }

  // ---------------------------------------------------------------------------
  // `re.sub(r'[^a-z\s]', '', s)`

  function KeepAllowed(s: string): (r: string)
    ensures forall k :: 0 <= k < |r| ==> IsAllowed(r[k])
  {
    if s == [] then []
    else
      var rest := KeepAllowed(s[1..]);
      assert s == [s[0]] + s[1..];
      if IsAllowed(s[0]) then [s[0]] + rest else rest
  }

  /** An input made only of allowed characters is returned unchanged. */
  lemma {:induction false} KeepAllowedOfAllowed(s: string)
    requires forall k :: 0 <= k < |s| ==> IsAllowed(s[k])
    ensures KeepAllowed(s) == s
  {
    if s != [] {
      KeepAllowedCons(s);
      KeepAllowedOfAllowed(s[1..]);
      assert s == [s[0]] + s[1..];
    }
  }

  /** Every allowed character keeps its number of occurrences; every other one is gone. */
  lemma {:induction false} KeepAllowedCounts(s: string)
    ensures forall c :: IsAllowed(c) ==> multiset(KeepAllowed(s))[c] == multiset(s)[c]
    ensures forall c :: !IsAllowed(c) ==> multiset(KeepAllowed(s))[c] == 0
  {
    if s != [] {
      KeepAllowedCons(s);
      KeepAllowedCounts(s[1..]);
      assert s == [s[0]] + s[1..];
    }
  }

  /** `re.sub` keeps the order: a single character is kept exactly when it is allowed,
      and the result of a concatenation is the concatenation of the results. */
  lemma KeepAllowedSingle(c: char)
    ensures KeepAllowed([c]) == if IsAllowed(c) then [c] else []
  {
    assert [c][1..] == [];
  }

  lemma {:induction false} KeepAllowedAppend(a: string, b: string)
    ensures KeepAllowed(a + b) == KeepAllowed(a) + KeepAllowed(b)
  {
    if a == [] {
      assert a + b == b;
    } else {
      var t, head := a + b, if IsAllowed(a[0]) then [a[0]] else [];
      assert t[0] == a[0] && t[1..] == a[1..] + b;
      var x, y, z := KeepAllowed(a[1..]), KeepAllowed(b), KeepAllowed(a[1..] + b);
      KeepAllowedCons(t);
      KeepAllowedCons(a);
      KeepAllowedAppend(a[1..], b);
      assert z == x + y;
      assert KeepAllowed(t) == head + z;
      assert KeepAllowed(a) == head + x;
      assert head + (x + y) == (head + x) + y;
    }
  }

  lemma KeepAllowedCons(s: string)
    requires s != []
    ensures KeepAllowed(s) == (if IsAllowed(s[0]) then [s[0]] else []) + KeepAllowed(s[1..])
  {
  }

  // ---------------------------------------------------------------------------
  // `.strip()`

  predicate AllSpace(s: string) {
    forall k :: 0 <= k < |s| ==> IsSpace(s[k])
  }

  function TrimStart(s: string): (r: string)
    ensures |r| <= |s| && r == s[|s| - |r|..]
    ensures r == [] || !IsSpace(r[0])
  {
    if s != [] && IsSpace(s[0]) then TrimStart(s[1..]) else s
  }

  function TrimEnd(s: string): (r: string)
    ensures |r| <= |s| && r == s[..|r|]
    ensures r == [] || !IsSpace(r[|r| - 1])
  {
    if s != [] && IsSpace(s[|s| - 1]) then TrimEnd(s[..|s| - 1]) else s
  }

  /** TrimStart drops only whitespace. */
  lemma {:induction false} TrimStartDropsSpace(s: string)
    ensures AllSpace(s[..|s| - |TrimStart(s)|])
  {
    if s != [] && IsSpace(s[0]) {
      var n := |s| - |TrimStart(s)|;
      TrimStartDropsSpace(s[1..]);
      assert s[..n] == [s[0]] + s[1..][..n - 1];
    }
  }

  /** TrimEnd drops only whitespace. */
  lemma {:induction false} TrimEndDropsSpace(s: string)
    ensures AllSpace(s[|TrimEnd(s)|..])
  {
    if s != [] && IsSpace(s[|s| - 1]) {
      var t := s[..|s| - 1];
      TrimEndDropsSpace(t);
      assert s[|TrimEnd(s)|..] == t[|TrimEnd(t)|..] + [s[|s| - 1]];
    }
  }

  /** `r` is the slice of `s` left once the leading and then the trailing whitespace
      are dropped. */
  function Strip(s: string): (r: string)
    ensures var lo := |s| - |TrimStart(s)|;
              lo + |r| <= |s| && r == s[lo..lo + |r|]
  {
    var t := TrimStart(s);
    var r := TrimEnd(t);
    PrefixOfSuffix(s, |s| - |t|, |r|);
    r
  }

  lemma PrefixOfSuffix(s: string, lo: nat, n: nat)
    requires lo + n <= |s|
    ensures s[lo..][..n] == s[lo..lo + n]
  {
  }

  /** Neither end of a stripped string is whitespace. */
  lemma StripEdges(s: string)
    ensures var r := Strip(s); r == [] || (!IsSpace(r[0]) && !IsSpace(r[|r| - 1]))
  {
    var t := TrimStart(s);
    var r := TrimEnd(t);
    assert r == Strip(s);
    if r != [] {
      assert r[0] == t[0];
    }
  }

  /** What Strip drops from either end is whitespace only. */
  lemma StripDropsOnlySpace(s: string)
    ensures var r, lo := Strip(s), |s| - |TrimStart(s)|;
              AllSpace(s[..lo]) && AllSpace(s[lo + |r|..])
  {
    StripOfTrims(s);
    TrimStartDropsSpace(s);
    TrimsDropTrailing(s);
  }

  /** What TrimEnd drops after TrimStart is whitespace, located in `s` itself. */
  lemma {:induction false} TrimsDropTrailing(s: string)
    ensures var t := TrimStart(s); AllSpace(s[|s| - |t| + |TrimEnd(t)|..])
  {
    if s != [] && IsSpace(s[0]) {
      var t := TrimStart(s);
      TrimsDropTrailing(s[1..]);
      assert TrimStart(s[1..]) == t;
      var x := |s| - |t| + |TrimEnd(t)|;
      assert s[1..][x - 1..] == s[x..];
    } else {
      TrimEndDropsSpace(s);
    }
  }

  lemma StripOfTrims(s: string)
    ensures Strip(s) == TrimEnd(TrimStart(s))
  {
  }

  lemma StripKeepsAllowed(s: string)
    requires forall k :: 0 <= k < |s| ==> IsAllowed(s[k])
    ensures forall k :: 0 <= k < |Strip(s)| ==> IsAllowed(Strip(s)[k])
  {
    var r, lo := Strip(s), |s| - |TrimStart(s)|;
    SliceKeepsAllowed(s, lo, lo + |r|);
  }

  lemma SliceKeepsAllowed(s: string, lo: nat, hi: nat)
    requires lo <= hi <= |s|
    requires forall k :: 0 <= k < |s| ==> IsAllowed(s[k])
    ensures forall k :: 0 <= k < hi - lo ==> IsAllowed(s[lo..hi][k])
  {
    forall k | 0 <= k < hi - lo ensures IsAllowed(s[lo..hi][k]) {
      assert s[lo..hi][k] == s[lo + k];
    }
  }

  /** The cleaned name (`tisztitott_nev`, users.py:8-10). */
  function Normalize(folded: string): (r: string)
    ensures forall k :: 0 <= k < |r| ==> IsAllowed(r[k])
    ensures r == [] || (!IsSpace(r[0]) && !IsSpace(r[|r| - 1]))
  {
    StripKeepsAllowed(KeepAllowed(Lower(folded)));
    StripEdges(KeepAllowed(Lower(folded)));
    Strip(KeepAllowed(Lower(folded)))
  }

  // ---------------------------------------------------------------------------
  // `.split()` with no separator: maximal runs of non-whitespace

  /** The characters of `s` that are not whitespace, in order. */
  function NonSpace(s: string): string {
    if s == [] then [] else (if IsSpace(s[0]) then [] else [s[0]]) + NonSpace(s[1..])
  }

  function Flatten(ws: seq<string>): string {
    if ws == [] then [] else ws[0] + Flatten(ws[1..])
  }

  lemma {:induction false} NonSpaceAppend(a: string, b: string)
    ensures NonSpace(a + b) == NonSpace(a) + NonSpace(b)
  {
    if a != [] {
      var head: string := if IsSpace(a[0]) then [] else [a[0]];
      calc {
        NonSpace(a + b);
        { assert (a + b)[0] == a[0] && (a + b)[1..] == a[1..] + b; }
        head + NonSpace(a[1..] + b);
        { NonSpaceAppend(a[1..], b); }
        head + (NonSpace(a[1..]) + NonSpace(b));
        NonSpace(a) + NonSpace(b);
      }
    } else {
      assert a + b == b;
    }
  }

  lemma {:induction false} NonSpaceOfNoSpace(s: string)
    requires NoSpace(s)
    ensures NonSpace(s) == s
  {
    if s != [] {
      NonSpaceOfNoSpace(s[1..]);
    }
  }

  /** Length of the leading run of non-whitespace characters. */
  function WordLength(s: string): (n: nat)
    ensures n <= |s| && NoSpace(s[..n])
    ensures n < |s| ==> IsSpace(s[n])
  {
    if s == [] || IsSpace(s[0]) then 0
    else
      var m := WordLength(s[1..]);
      assert s[..m + 1] == [s[0]] + s[1..][..m];
      m + 1
  }

  /** `.split()`: the maximal runs of non-whitespace characters, in order. */
  function Split(s: string): (r: seq<string>)
    ensures forall i :: 0 <= i < |r| ==> r[i] != [] && NoSpace(r[i])
    ensures (forall k :: 0 <= k < |s| ==> IsAllowed(s[k])) ==>
              forall i :: 0 <= i < |r| ==> IsWord(r[i])
    decreases |s|
  {
    if s == [] then []
    else if IsSpace(s[0]) then Split(s[1..])
    else
      var n := WordLength(s);
      var r := [s[..n]] + Split(s[n..]);
      assert r[1..] == Split(s[n..]);
      assert forall k :: 0 <= k < n ==> s[..n][k] == s[k];
      r
  }

  /** The leading run is the only prefix without whitespace that ends at whitespace
      or at the end of the input. */
  lemma {:induction false} WordLengthUnique(s: string, n: nat)
    requires n <= |s| && (forall k :: 0 <= k < n ==> !IsSpace(s[k]))
    requires n == |s| || IsSpace(s[n])
    ensures WordLength(s) == n
  {
    if s != [] && !IsSpace(s[0]) {
      assert n > 0;
      WordLengthUnique(s[1..], n - 1);
    }
  }

  /** A non-empty string without whitespace is a single token. */
  lemma SplitOfWord(w: string)
    requires w != [] && NoSpace(w)
    ensures Split(w) == [w]
  {
    assert w[..|w|] == w;
    WordLengthUnique(w, |w|);
    assert w[|w|..] == [];
  }

  /** Tokens are maximal runs: any whitespace character separates the tokens on its
      left from those on its right, and never falls inside a token. */
  lemma {:induction false} SplitAtSpace(a: string, c: char, b: string)
    requires IsSpace(c)
    ensures Split(a + [c] + b) == Split(a) + Split(b)
    decreases |a|
  {
    var s := a + [c] + b;
    if a == [] {
      assert s == [c] + b && s[1..] == b;
    } else if IsSpace(a[0]) {
      assert s[0] == a[0] && s[1..] == a[1..] + [c] + b;
      SplitAtSpace(a[1..], c, b);
    } else {
      var m := WordLength(a);
      assert s[..m] == a[..m];
      assert forall k :: 0 <= k < m ==> s[k] == a[..m][k];
      assert m < |a| ==> s[m] == a[m];
      assert m == |a| ==> s[m] == c;
      WordLengthUnique(s, m);
      assert s[m..] == a[m..] + [c] + b;
      assert s[0] == a[0];
      SplitAtSpace(a[m..], c, b);
      assert Split(a) == [a[..m]] + Split(a[m..]);
      assert Split(s) == [s[..m]] + Split(s[m..]);
    }
  }

  /** Splitting loses exactly the whitespace: the tokens put back together are the
      non-whitespace characters of the input. */
  lemma {:induction false} SplitKeepsNonSpace(s: string)
    ensures Flatten(Split(s)) == NonSpace(s)
    decreases |s|
  {
    if s == [] {
    } else if IsSpace(s[0]) {
      SplitKeepsNonSpace(s[1..]);
    } else {
      var n := WordLength(s);
      assert s == s[..n] + s[n..];
      NonSpaceAppend(s[..n], s[n..]);
      NonSpaceOfNoSpace(s[..n]);
      SplitKeepsNonSpace(s[n..]);
      assert Split(s)[1..] == Split(s[n..]);
    }
  }

  /** The tokens of the name (`nev_reszek`, users.py:8-11): each is a word. */
  function Tokens(folded: string): (r: seq<string>)
    ensures forall i :: 0 <= i < |r| ==> IsWord(r[i])
  {
    Split(Normalize(folded))
  }

  // ---------------------------------------------------------------------------
  // The base handle (`alap_resz`, users.py:13-21)

  const DefaultBase: string := "diak"

  function BaseHandle(tokens: seq<string>): (b: string)
    requires forall i :: 0 <= i < |tokens| ==> IsWord(tokens[i])
    ensures b != []
    ensures forall k :: 0 <= k < |b| ==> IsLowerLetter(b[k]) || b[k] == '_'
    ensures '_' in b <==> |tokens| >= 2
  {
    if |tokens| < 2 then
      if tokens == [] then DefaultBase
      else
        assert IsWord(tokens[0]);
        tokens[0]
    else
      var last, first := tokens[|tokens| - 1], tokens[0];
      var b := last + "_" + first;
      assert IsWord(last) && IsWord(first);
      assert b[|last|] == '_';
      assert forall k :: 0 <= k < |last| ==> b[k] == last[k];
      assert forall k :: |last| < k < |b| ==> b[k] == first[k - |last| - 1];
      b
  }

  /** `.replace(' ', '_')` */
  function ReplaceSpaces(s: string): (r: string)
    ensures |r| == |s| && ' ' !in r
    ensures forall k :: 0 <= k < |s| && s[k] != ' ' ==> r[k] == s[k]
    ensures forall k :: 0 <= k < |s| && s[k] == ' ' ==> r[k] == '_'
  {
    seq(|s|, k requires 0 <= k < |s| => if s[k] == ' ' then '_' else s[k])
  }

  /** The base handle derived from the folded display name. */
  function BaseOf(folded: string): (b: string)
    ensures b == BaseHandle(Tokens(folded))
    ensures b != [] && forall k :: 0 <= k < |b| ==> IsLowerLetter(b[k]) || b[k] == '_'
    ensures '_' in b <==> |Tokens(folded)| >= 2
  {
    ReplaceSpacesIsIdentityOnBase(Tokens(folded));
    ReplaceSpaces(BaseHandle(Tokens(folded)))
  }

  lemma ReplaceSpacesIsIdentityOnBase(tokens: seq<string>)
    requires forall i :: 0 <= i < |tokens| ==> IsWord(tokens[i])
    ensures ReplaceSpaces(BaseHandle(tokens)) == BaseHandle(tokens)
  {
    var b := BaseHandle(tokens);
    assert forall k :: 0 <= k < |b| ==> b[k] != ' ';
  }

  // ---------------------------------------------------------------------------
  // The base handle of a name that is already a run of words

  /** Words separated by single spaces, as a display name is usually written. */
  function Join(ws: seq<string>): string {
    if ws == [] then []
    else if |ws| == 1 then ws[0]
    else ws[0] + " " + Join(ws[1..])
  }

  lemma {:induction false} JoinShape(ws: seq<string>)
    requires forall i :: 0 <= i < |ws| ==> IsWord(ws[i])
    ensures var s := Join(ws);
              && (forall k :: 0 <= k < |s| ==> IsLowerLetter(s[k]) || s[k] == ' ')
              && (ws != [] ==> s != [] && IsLowerLetter(s[0]) && IsLowerLetter(s[|s| - 1]))
  {
    if |ws| > 1 {
      JoinShape(ws[1..]);
      var w, rest := ws[0], Join(ws[1..]);
      assert IsWord(w);
      var s := w + " " + rest;
      assert forall k :: 0 <= k < |w| ==> s[k] == w[k];
      assert forall k :: |w| < k < |s| ==> s[k] == rest[k - |w| - 1];
    } else if |ws| == 1 {
      assert IsWord(ws[0]);
    }
  }

  lemma WordLengthOfWord(w: string, rest: string)
    requires IsWord(w) && (rest == [] || IsSpace(rest[0]))
    ensures WordLength(w + rest) == |w|
  {
    var s := w + rest;
    var n := WordLength(s);
    assert forall k :: 0 <= k < |w| ==> s[k] == w[k] && !IsSpace(s[k]);
    assert rest != [] ==> s[|w|] == rest[0];
  }

  /** Splitting a joined run of words gives the words back. */
  lemma {:induction false} SplitJoin(ws: seq<string>)
    requires forall i :: 0 <= i < |ws| ==> IsWord(ws[i])
    ensures Split(Join(ws)) == ws
  {
    if |ws| == 1 {
      var w := ws[0];
      assert w + [] == w;
      WordLengthOfWord(w, []);
      assert w[..|w|] == w && w[|w|..] == [];
    } else if |ws| > 1 {
      var w, rest := ws[0], Join(ws[1..]);
      var s := w + " " + rest;
      assert s == w + (" " + rest);
      WordLengthOfWord(w, " " + rest);
      assert s[..|w|] == w && s[|w|..] == " " + rest;
      assert (" " + rest)[1..] == rest;
      SplitJoin(ws[1..]);
    }
  }

  /** A string of lowercase letters and single spaces with no space at either end
      passes the cleaning steps unchanged. */
  lemma NormalizeOfClean(s: string)
    requires forall k :: 0 <= k < |s| ==> IsLowerLetter(s[k]) || s[k] == ' '
    requires s == [] || (IsLowerLetter(s[0]) && IsLowerLetter(s[|s| - 1]))
    ensures Normalize(s) == s
  {
    assert forall k :: 0 <= k < |s| ==> !IsUpperLetter(s[k]);
    LowerOfLowercase(s);
    AllowedOfClean(s);
    if s != [] {
      LetterIsNotSpace(s[0]);
      LetterIsNotSpace(s[|s| - 1]);
    }
    TrimOfUnpadded(s);
    calc {
      Normalize(s);
      Strip(KeepAllowed(Lower(s)));
      Strip(KeepAllowed(s));
      Strip(s);
    }
  }

  lemma LetterIsNotSpace(c: char)
    requires IsLowerLetter(c)
    ensures !IsSpace(c)
  {
  }

  lemma AllowedOfClean(s: string)
    requires forall k :: 0 <= k < |s| ==> IsLowerLetter(s[k]) || s[k] == ' '
    ensures KeepAllowed(s) == s
  {
    assert forall k :: 0 <= k < |s| ==> IsAllowed(s[k]);
    KeepAllowedOfAllowed(s);
  }

  lemma LowerOfLowercase(s: string)
    requires forall k :: 0 <= k < |s| ==> !IsUpperLetter(s[k])
    ensures Lower(s) == s
  {
    assert forall k :: 0 <= k < |s| ==> Lower(s)[k] == s[k];
  }

  lemma TrimOfUnpadded(s: string)
    requires s == [] || (!IsSpace(s[0]) && !IsSpace(s[|s| - 1]))
    ensures Strip(s) == s
  {
    assert TrimStart(s) == s;
    assert TrimEnd(s) == s;
    assert Strip(s) == TrimEnd(TrimStart(s));
  }

  /** The base handle of a display name written as words: `diak` for none, the word for
      one, and `last_first` for two or more. */
  lemma BaseOfJoinedName(ws: seq<string>)
    requires forall i :: 0 <= i < |ws| ==> IsWord(ws[i])
    ensures BaseOf(Join(ws)) == if ws == [] then DefaultBase
                                else if |ws| == 1 then ws[0]
                                else ws[|ws| - 1] + "_" + ws[0]
  {
    BaseOfJoin(ws);
  }

  lemma BaseOfJoin(ws: seq<string>)
    requires forall i :: 0 <= i < |ws| ==> IsWord(ws[i])
    ensures BaseOf(Join(ws)) == BaseHandle(ws)
  {
    TokensOfJoin(ws);
    ReplaceSpacesIsIdentityOnBase(ws);
  }

  lemma TokensOfJoin(ws: seq<string>)
    requires forall i :: 0 <= i < |ws| ==> IsWord(ws[i])
    ensures Tokens(Join(ws)) == ws
  {
    var s := Join(ws);
    JoinShape(ws);
    NormalizeOfClean(s);
    SplitJoin(ws);
    calc {
      Tokens(s);
      Split(Normalize(s));
      Split(s);
    }
  }

  /** A name without any ASCII letter falls back to `diak`. */
  lemma BaseOfLetterlessName(folded: string)
    requires forall k :: 0 <= k < |folded| ==> !IsLowerLetter(folded[k]) && !IsUpperLetter(folded[k])
    ensures Tokens(folded) == []
    ensures BaseOf(folded) == DefaultBase
  {
    var lowered := Lower(folded);
    var cleaned := KeepAllowed(lowered);
    var r := Normalize(folded);
    assert forall k :: 0 <= k < |cleaned| ==> !IsLowerLetter(cleaned[k]) by {
      forall k | 0 <= k < |cleaned| ensures !IsLowerLetter(cleaned[k]) {
        var c := cleaned[k];
        KeepAllowedCounts(lowered);
        assert c in multiset(cleaned);
      }
    }
    assert r == [];
    ReplaceSpacesIsIdentityOnBase([]);
  }

  /** Case is irrelevant to the base handle. */
  lemma BaseOfIgnoresCase(x: string, y: string)
    requires Lower(x) == Lower(y)
    ensures BaseOf(x) == BaseOf(y)
  {
  }

  /** "Kovács Anna", folded by unidecode to "Kovacs Anna", gets the base `anna_kovacs`. */
  lemma KovacsAnnaBase(fold: string -> string)
    requires fold("Kovács Anna") == "Kovacs Anna"
    ensures BaseOf(fold("Kovács Anna")) == "anna_kovacs"
  {
    var x := fold("Kovács Anna");
    var ws := KovacsAnnaWords();
    BaseOfIgnoresCase(x, Join(ws));
    BaseOfJoinedName(ws);
  }

  lemma KovacsAnnaWords() returns (ws: seq<string>)
    ensures |ws| == 2 && forall i :: 0 <= i < |ws| ==> IsWord(ws[i])
    ensures ws[1] + "_" + ws[0] == "anna_kovacs"
    ensures Lower("Kovacs Anna") == Lower(Join(ws))
  {
    ws := ["kovacs", "anna"];
    assert IsWord(ws[0]) && IsWord(ws[1]);
    assert Join(ws) == ws[0] + " " + Join(ws[1..]);
    assert ws[1..] == ["anna"];
    var x, y := "Kovacs Anna", "kovacs anna";
    assert forall k :: 0 <= k < |x| ==> Lower(x)[k] == Lower(y)[k];
  }

  // ---------------------------------------------------------------------------
  // The numeric suffix: `str(n)` for the draw `random.randint(10, 99)`

  /** The values `random.randint(10, 99)` can return. */
  const MinSuffix: int := 10
  const MaxSuffix: int := 99

  type Suffix = n: int | MinSuffix <= n <= MaxSuffix witness MinSuffix

  predicate IsDigit(c: char) { '0' <= c <= '9' }

  function DigitChar(d: int): (c: char)
    requires 0 <= d <= 9
    ensures IsDigit(c)
  {
    ('0' as int + d) as char
  }

  function DigitValue(c: char): int
    requires IsDigit(c)
  {
    c as int - '0' as int
  }

  /** Python's `str(n)` for a non-negative integer. */
  function DecimalString(n: nat): (s: string)
    ensures s != [] && forall k :: 0 <= k < |s| ==> IsDigit(s[k])
  {
    if n < 10 then [DigitChar(n)] else DecimalString(n / 10) + [DigitChar(n % 10)]
  }

  function ParseDecimal(s: string): nat
    requires forall k :: 0 <= k < |s| ==> IsDigit(s[k])
  {
    if s == [] then 0 else ParseDecimal(s[..|s| - 1]) * 10 + DigitValue(s[|s| - 1])
  }

  lemma {:induction false} ParseDecimalString(n: nat)
    ensures ParseDecimal(DecimalString(n)) == n
  {
    var s := DecimalString(n);
    if n >= 10 {
      ParseDecimalString(n / 10);
      assert s[..|s| - 1] == DecimalString(n / 10);
    }
  }

  /** A generated username candidate: `f"{alap_resz}{veletlen_szam}"`. */
  function Handle(base: string, n: Suffix): (h: string)
    ensures |h| == |base| + 2 && h[..|base|] == base
  {
    assert DecimalString(n) == DecimalString(n / 10) + [DigitChar(n % 10)];
    base + DecimalString(n)
  }

  /** A candidate is the base followed by exactly two digits that spell the draw. */
  lemma HandleShape(base: string, n: Suffix)
    ensures |Handle(base, n)| == |base| + 2
    ensures Handle(base, n)[..|base|] == base
    ensures forall k :: |base| <= k < |base| + 2 ==> IsDigit(Handle(base, n)[k])
    ensures ParseDecimal(Handle(base, n)[|base|..]) == n
  {
    var h := Handle(base, n);
    assert DecimalString(n) == DecimalString(n / 10) + [DigitChar(n % 10)];
    assert h[|base|..] == DecimalString(n);
    ParseDecimalString(n);
  }

  /** Different draws give different candidates for the same base. */
  lemma HandleInjective(base: string, n: Suffix, m: Suffix)
    requires Handle(base, n) == Handle(base, m)
    ensures n == m
  {
    HandleShape(base, n);
    HandleShape(base, m);
  }
}
