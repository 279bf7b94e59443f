/** ASCII models of the Python string operations the slang pipeline is built
    from: str.lower(), str.strip() and str.strip(chars), str.split() with no
    argument, and " ".join(...). */
module Text {
  import opened Seqs

  /** Python's str.isspace() on ASCII: \t \n \v \f \r (9-13), the four
      information separators (28-31) and the space (32). */
  predicate IsSpace(c: char) {
    9 <= c as int <= 13 || 28 <= c as int <= 32
  }

  /** Python's string.punctuation: the 32 printable ASCII characters that are
      neither letters, digits nor the space, that is ! to /, : to @, [ to `
      and { to ~. */
  predicate IsPunct(c: char) {
    '!' <= c <= '/' || ':' <= c <= '@' || '[' <= c <= '`' || '{' <= c <= '~'
  }

  predicate IsUpper(c: char) {
    'A' <= c <= 'Z'
  }

  function LowerChar(c: char): char {
    if IsUpper(c) then (c as int + 32) as char else c
  }

  predicate IsLower(s: string) {
    forall i :: 0 <= i < |s| ==> !IsUpper(s[i])
  }

  /** str.lower(): capitals become small letters, every other character stays. */
  function Lower(s: string): (r: string)
    ensures |r| == |s| && IsLower(r)
    ensures forall i :: 0 <= i < |s| && !IsUpper(s[i]) ==> r[i] == s[i]
    ensures forall i :: 0 <= i < |s| && IsUpper(s[i]) ==> r[i] as int == s[i] as int + 32
  {
    seq(|s|, i requires 0 <= i < |s| => LowerChar(s[i]))
  }

  lemma {:induction false} LowerOfLower(s: string)
    requires IsLower(s)
    ensures Lower(s) == s
  {
  }

  /** str.lstrip(chars): the longest suffix of s that does not start with a
      character in the class. */
  function TrimStart(s: string, drop: char -> bool): (r: string)
    ensures |r| <= |s| && r == s[|s| - |r|..]
    ensures forall i :: 0 <= i < |s| - |r| ==> drop(s[i])
    ensures r == [] || !drop(r[0])
    decreases |s|
  {
    if s != [] && drop(s[0]) then
      var r := TrimStart(s[1..], drop);
      assert s[1..][|s| - 1 - |r|..] == s[|s| - |r|..];
      assert forall i :: 1 <= i < |s| ==> s[i] == s[1..][i - 1];
      r
    else s
  }

  /** str.rstrip(chars): the longest prefix of s that does not end with a
      character in the class. */
  function TrimEnd(s: string, drop: char -> bool): (r: string)
    ensures |r| <= |s| && r == s[..|r|]
    ensures forall i :: |r| <= i < |s| ==> drop(s[i])
    ensures r == [] || !drop(r[|r| - 1])
    decreases |s|
  {
    if s != [] && drop(s[|s| - 1]) then
      var r := TrimEnd(s[..|s| - 1], drop);
      assert s[..|s| - 1][..|r|] == s[..|r|];
      assert forall i :: 0 <= i < |s| - 1 ==> s[i] == s[..|s| - 1][i];
      r
    else s
  }

  /** Neither end of s is in the class. */
  predicate Trimmed(s: string, drop: char -> bool) {
    s == [] || (!drop(s[0]) && !drop(s[|s| - 1]))
  }

  /** r is the slice of s that starts at a, and every character of s outside
      that slice is in the class. */
  predicate Strips(s: string, r: string, a: int, drop: char -> bool) {
    0 <= a <= |s| - |r| && r == s[a..a + |r|] &&
    (forall i :: 0 <= i < a ==> drop(s[i])) &&
    (forall i :: a + |r| <= i < |s| ==> drop(s[i]))
  }

  /** str.strip(chars): both ends stripped of the class. The result is a slice
      of s with only characters of the class cut from its two ends, and
      neither of its ends is in the class. */
  function Trim(s: string, drop: char -> bool): (r: string)
    ensures exists a :: Strips(s, r, a, drop)
    ensures Trimmed(r, drop)
    ensures |r| <= |s|
    ensures r == [] <==> forall i :: 0 <= i < |s| ==> drop(s[i])
    ensures IsLower(s) ==> IsLower(r)
  {
    var t := TrimStart(s, drop);
    TrimEmpty(s, t, drop);
    TrimKeepsLower(s, t, drop);
    TrimBothEnds(t, drop);
    TrimSlice(s, t, TrimEnd(t, drop), drop);
    TrimEnd(t, drop)
  }

  /** The two trims cut a prefix and a suffix of droppable characters. */
  lemma {:induction false} TrimSlice(s: string, t: string, r: string, drop: char -> bool)
    requires |t| <= |s| && t == s[|s| - |t|..] && forall i :: 0 <= i < |s| - |t| ==> drop(s[i])
    requires |r| <= |t| && r == t[..|r|] && forall i :: |r| <= i < |t| ==> drop(t[i])
    ensures Strips(s, r, |s| - |t|, drop)
  {
    SliceOfSuffix(s, t, r);
    SuffixDropped(s, t, r, drop);
  }

  lemma {:induction false} SliceOfSuffix(s: string, t: string, r: string)
    requires |t| <= |s| && t == s[|s| - |t|..]
    requires |r| <= |t| && r == t[..|r|]
    ensures r == s[|s| - |t|..|s| - |t| + |r|]
  {
  }

  lemma {:induction false} SuffixDropped(s: string, t: string, r: string, drop: char -> bool)
    requires |t| <= |s| && t == s[|s| - |t|..]
    requires |r| <= |t| && forall i :: |r| <= i < |t| ==> drop(t[i])
    ensures forall i :: |s| - |t| + |r| <= i < |s| ==> drop(s[i])
  {
    forall i | |s| - |t| + |r| <= i < |s| ensures drop(s[i]) {
      assert s[i] == t[i - (|s| - |t|)];
    }
  }

  /** Stripping is determined: padding a trimmed text with droppable
      characters on either side and stripping gives the text back. */
  lemma {:induction false} TrimPadded(p: string, m: string, q: string, drop: char -> bool)
    requires forall i :: 0 <= i < |p| ==> drop(p[i])
    requires forall i :: 0 <= i < |q| ==> drop(q[i])
    requires Trimmed(m, drop)
    ensures Trim(p + m + q, drop) == m
  {
    var r := Trim(p + m + q, drop);
    var a :| Strips(p + m + q, r, a, drop);
    StripsUnique(p, m, q, r, a, drop);
  }

  /** Only one trimmed slice of a padded text is a stripping of it. */
  lemma {:induction false} StripsUnique(p: string, m: string, q: string, r: string, a: int, drop: char -> bool)
    requires forall i :: 0 <= i < |p| ==> drop(p[i])
    requires forall i :: 0 <= i < |q| ==> drop(q[i])
    requires Trimmed(m, drop) && Trimmed(r, drop)
    requires Strips(p + m + q, r, a, drop)
    ensures r == m
  {
    var s := p + m + q;
    assert forall i :: 0 <= i < |p| ==> s[i] == p[i];
    assert forall i :: 0 <= i < |m| ==> s[|p| + i] == m[i];
    assert forall i :: |p| + |m| <= i < |s| ==> s[i] == q[i - |p| - |m|];
    if m == [] {
      assert forall i :: 0 <= i < |s| ==> drop(s[i]);
      assert r == [];
    } else {
      assert !drop(s[|p|]) && !drop(s[|p| + |m| - 1]);
      StripsStart(s, r, a, drop, |p|);
      StripsEnd(s, r, a, drop, |p| + |m|);
      assert r == s[|p|..|p| + |m|];
    }
  }

  /** A stripped slice with a kept first character starts at the first
      character outside the class. */
  lemma {:induction false} StripsStart(s: string, r: string, a: int, drop: char -> bool, k: int)
    requires Strips(s, r, a, drop) && Trimmed(r, drop)
    requires 0 <= k < |s| && !drop(s[k]) && forall i :: 0 <= i < k ==> drop(s[i])
    ensures a == k && r != []
  {
    assert r != [] by {
      assert !(a + |r| <= k) && !(k < a);
    }
    assert r[0] == s[a];
  }

  /** A stripped slice with a kept last character ends after the last
      character outside the class. */
  lemma {:induction false} StripsEnd(s: string, r: string, a: int, drop: char -> bool, e: int)
    requires Strips(s, r, a, drop) && Trimmed(r, drop)
    requires 0 < e <= |s| && !drop(s[e - 1]) && forall i :: e <= i < |s| ==> drop(s[i])
    ensures a + |r| == e
  {
    assert r != [] by {
      assert !(a + |r| <= e - 1) && !(e - 1 < a);
    }
    assert r[|r| - 1] == s[a + |r| - 1];
  }

  /** Trimming the end of a text whose start is trimmed leaves both ends trimmed. */
  lemma {:induction false} TrimBothEnds(t: string, drop: char -> bool)
    requires t == [] || !drop(t[0])
    ensures Trimmed(TrimEnd(t, drop), drop)
  {
    var r := TrimEnd(t, drop);
    if r != [] {
      assert r[0] == t[0];
    }
  }

  /** Both trims leave nothing exactly when every character is dropped. */
  lemma {:induction false} TrimEmpty(s: string, t: string, drop: char -> bool)
    requires t == TrimStart(s, drop)
    ensures TrimEnd(t, drop) == [] <==> forall i :: 0 <= i < |s| ==> drop(s[i])
  {
    var r := TrimEnd(t, drop);
    if r == [] {
      assert t == [];
    } else {
      assert !drop(t[0]);
      assert t[0] == s[|s| - |t|];
    }
  }

  /** The trimmed text is a slice of the input, so it keeps lower case. */
  lemma {:induction false} TrimKeepsLower(s: string, t: string, drop: char -> bool)
    requires t == TrimStart(s, drop)
    ensures IsLower(s) ==> IsLower(TrimEnd(t, drop))
  {
    var r := TrimEnd(t, drop);
    if IsLower(s) {
      forall i | 0 <= i < |r| ensures !IsUpper(r[i]) {
        assert r[i] == t[i];
        assert t[i] == s[|s| - |t| + i];
      }
    }
  }

  /** Stripping a string whose ends are already outside the class changes nothing. */
  lemma {:induction false} TrimOfTrimmed(s: string, drop: char -> bool)
    requires Trimmed(s, drop)
    ensures Trim(s, drop) == s
  {
  }

  /** The cleaning both the loader (streamlit_app.py:62-63) and the add form
      (streamlit_app.py:220-221) apply: .lower() then .strip(). */
  function Clean(s: string): (r: string)
    ensures exists a :: Strips(Lower(s), r, a, IsSpace)
    ensures IsClean(r)
    ensures |r| <= |s|
    ensures r == [] <==> forall i :: 0 <= i < |s| ==> IsSpace(s[i])
  {
    var lowered := Lower(s);
    assert forall i :: 0 <= i < |s| ==> (IsSpace(s[i]) <==> IsSpace(lowered[i]));
    Trim(lowered, IsSpace)
  }

  /** Lower-casing leaves text that has no capitals alone around a middle part. */
  lemma {:induction false} LowerPadded(p: string, w: string, q: string)
    requires IsLower(p) && IsLower(q)
    ensures Lower(p + w + q) == p + Lower(w) + q
  {
    var s, r := p + w + q, p + Lower(w) + q;
    forall i | 0 <= i < |s| ensures Lower(s)[i] == r[i] {
      if i < |p| {
        assert s[i] == p[i] && r[i] == p[i];
      } else if i < |p| + |w| {
        assert s[i] == w[i - |p|] && r[i] == Lower(w)[i - |p|];
      } else {
        assert s[i] == q[i - |p| - |w|] && r[i] == q[i - |p| - |w|];
      }
    }
  }

  /** Capitals are neither whitespace nor punctuation, before or after lowering,
      so lowering keeps a text's ends outside both classes. */
  lemma {:induction false} LowerKeepsTrimmed(w: string)
    ensures Trimmed(w, IsSpace) ==> Trimmed(Lower(w), IsSpace)
    ensures Trimmed(w, IsPunct) ==> Trimmed(Lower(w), IsPunct)
  {
  }

  /** Cleaning a text padded with whitespace gives the lower-cased text. */
  lemma {:induction false} CleanPadded(p: string, w: string, q: string)
    requires AllSpace(p) && AllSpace(q) && Trimmed(w, IsSpace)
    ensures Clean(p + w + q) == Lower(w)
  {
    LowerPadded(p, w, q);
    LowerKeepsTrimmed(w);
    TrimPadded(p, Lower(w), q, IsSpace);
  }

  /** The add form's example: " FTW " is stored as "ftw". */
  lemma {:induction false} CleanExample()
    ensures Clean(" FTW ") == "ftw"
  {
    var p, w, q := " ", "FTW", " ";
    assert p + w + q == " FTW ";
    assert Trimmed(w, IsSpace) by {
      assert w[0] == 'F' && w[|w| - 1] == 'W';
    }
    assert AllSpace(p) && AllSpace(q);
    CleanPadded(p, w, q);
    LowerFtw();
  }

  lemma {:induction false} LowerFtw()
    ensures Lower("FTW") == "ftw"
  {
    var r := Lower("FTW");
    assert r[0] == 'f' && r[1] == 't' && r[2] == 'w';
  }

  /** Lower case with no leading or trailing whitespace. */
  predicate IsClean(s: string) {
    IsLower(s) && Trimmed(s, IsSpace)
  }

  /** Cleaning is the identity exactly on clean strings, so cleaning twice
      is cleaning once. */
  lemma {:induction false} CleanFixesClean(s: string)
    ensures Clean(s) == s <==> IsClean(s)
    ensures Clean(Clean(s)) == Clean(s)
  {
    if IsClean(s) {
      LowerOfLower(s);
      TrimOfTrimmed(s, IsSpace);
    }
    var c := Clean(s);
    LowerOfLower(c);
    TrimOfTrimmed(c, IsSpace);
  }

  /** A token of str.split(): non-empty, no whitespace inside. */
  predicate IsWord(w: string) {
    w != [] && forall i :: 0 <= i < |w| ==> !IsSpace(w[i])
  }

  /** The longest prefix of s free of whitespace. */
  function WordPrefix(s: string): (w: string)
    ensures |w| <= |s| && w == s[..|w|]
    ensures forall i :: 0 <= i < |w| ==> !IsSpace(w[i])
    ensures |w| < |s| ==> IsSpace(s[|w|])
  {
    if s == [] || IsSpace(s[0]) then [] else [s[0]] + WordPrefix(s[1..])
  }

  /** str.split() with no argument: the maximal runs of non-whitespace, in
      order; leading, trailing and repeated whitespace produce no token. */
  function Split(s: string): (words: seq<string>)
    ensures forall i :: 0 <= i < |words| ==> IsWord(words[i])
    decreases |s|
  {
    var t := TrimStart(s, IsSpace);
    if t == [] then []
    else
      var w := WordPrefix(t);
      [w] + Split(t[|w|..])
  }

  /** The combined length of some texts. */
  function TotalLength(words: seq<string>): nat {
    if words == [] then 0 else |words[0]| + TotalLength(words[1..])
  }

  /** " ".join(words): the texts with one space between neighbours. */
  function Join(words: seq<string>): (r: string)
    ensures words == [] ==> r == ""
    ensures |words| == 1 ==> r == words[0]
    ensures words != [] ==> |r| == TotalLength(words) + |words| - 1
  {
    if |words| == 0 then ""
    else if |words| == 1 then words[0]
    else words[0] + " " + Join(words[1..])
  }

  predicate AllSpace(s: string) {
    forall i :: 0 <= i < |s| ==> IsSpace(s[i])
  }

  /** Splitting yields no token exactly when the text is empty or whitespace only. */
  lemma {:induction false} SplitEmpty(s: string)
    ensures Split(s) == [] <==> AllSpace(s)
  {
  }

  lemma {:induction false} TrimStartSkips(p: string, q: string, drop: char -> bool)
    requires forall i :: 0 <= i < |p| ==> drop(p[i])
    ensures TrimStart(p + q, drop) == TrimStart(q, drop)
    decreases |p|
  {
    if p == [] {
      assert p + q == q;
    } else {
      assert (p + q)[0] == p[0];
      assert (p + q)[1..] == p[1..] + q;
      TrimStartSkips(p[1..], q, drop);
    }
  }

  /** Leading whitespace does not change the tokens. */
  lemma {:induction false} SplitSkipsBlank(p: string, q: string)
    requires AllSpace(p)
    ensures Split(p + q) == Split(q)
  {
    TrimStartSkips(p, q, IsSpace);
  }

  lemma {:induction false} WordPrefixAppend(u: string, v: string)
    requires |WordPrefix(u)| < |u| || (v != [] && IsSpace(v[0]))
    ensures WordPrefix(u + v) == WordPrefix(u)
    decreases |u|
  {
    if u != [] && !IsSpace(u[0]) {
      assert (u + v)[1..] == u[1..] + v;
      WordPrefixAppend(u[1..], v);
    }
  }

  /** A text that starts with a word character splits into its first word
      followed by the tokens of the rest. */
  lemma {:induction false} SplitFromWord(t: string)
    requires t != [] && !IsSpace(t[0])
    ensures |WordPrefix(t)| > 0
    ensures Split(t) == [WordPrefix(t)] + Split(t[|WordPrefix(t)|..])
  {
  }

  /** A non-empty run of whitespace, of any kind: spaces, tabs, newlines. */
  predicate IsBlank(sp: string) {
    sp != [] && AllSpace(sp)
  }

  /** The first word of t stays the first token when a whitespace run and
      more text follow t. */
  lemma {:induction false} SplitAfterWord(t: string, sp: string, b: string)
    requires t != [] && !IsSpace(t[0]) && IsBlank(sp)
    ensures |WordPrefix(t)| > 0
    ensures Split(t + sp + b) == [WordPrefix(t)] + Split(t[|WordPrefix(t)|..] + sp + b)
  {
    var w := WordPrefix(t);
    var v := sp + b;
    var tail := t + v;
    assert v[0] == sp[0] && IsSpace(v[0]);
    WordPrefixAppend(t, v);
    SplitFromWord(tail);
    assert tail[|w|..] == t[|w|..] + v;
    assert t + sp + b == tail && t[|w|..] + sp + b == t[|w|..] + v;
  }

  /** Leading whitespace of the left operand does not change the tokens. */
  lemma {:induction false} SplitDropsLeadingBlank(a: string, sp: string, b: string)
    ensures Split(a + sp + b) == Split(TrimStart(a, IsSpace) + sp + b)
    ensures Split(a) == Split(TrimStart(a, IsSpace))
  {
    var t := TrimStart(a, IsSpace);
    var k := |a| - |t|;
    TakeDrop(a, k);
    Regroup(a[..k], t, sp, b);
    SplitSkipsBlank(a[..k], t + sp + b);
    SplitSkipsBlank(a[..k], t);
  }

  /** A blank left operand contributes no tokens. */
  lemma {:induction false} SplitAfterBlank(sp: string, b: string)
    requires IsBlank(sp)
    ensures Split([] + sp + b) == Split([]) + Split(b)
  {
    assert Split([]) == [] by {
      assert TrimStart([], IsSpace) == [];
    }
    assert [] + sp + b == sp + b;
    SplitSkipsBlank(sp, b);
  }

  /** Any whitespace run separates tokens: splitting two texts joined by
      spaces, tabs or newlines gives the tokens of the first followed by the
      tokens of the second. */
  lemma {:induction false} SplitAtBlank(a: string, sp: string, b: string)
    requires IsBlank(sp)
    ensures Split(a + sp + b) == Split(a) + Split(b)
    decreases |a|
  {
    SplitDropsLeadingBlank(a, sp, b);
    var t := TrimStart(a, IsSpace);
    if t == [] {
      SplitAfterBlank(sp, b);
    } else {
      var w := WordPrefix(t);
      var rest := t[|w|..];
      SplitFromWord(t);
      SplitAfterWord(t, sp, b);
      SplitAtBlank(rest, sp, b);
      AppendAssoc([w], Split(rest), Split(b));
    }
  }

  /** The single space " ".join puts between words is a whitespace run. */
  lemma {:induction false} SpaceIsBlank()
    ensures IsBlank(" ")
  {
    assert " "[0] == ' ';
  }

  /** The texts of a list, concatenated. */
  function Concat(words: seq<string>): string {
    if words == [] then [] else words[0] + Concat(words[1..])
  }

  /** The characters of s that are not whitespace, in order. */
  function NonSpace(s: string): string {
    if s == [] then [] else (if IsSpace(s[0]) then [] else [s[0]]) + NonSpace(s[1..])
  }

  lemma {:induction false} NonSpaceAppend(a: string, b: string)
    ensures NonSpace(a + b) == NonSpace(a) + NonSpace(b)
    decreases |a|
  {
    if a != [] {
      assert (a + b)[0] == a[0];
      assert (a + b)[1..] == a[1..] + b;
      NonSpaceAppend(a[1..], b);
    } else {
      assert a + b == b;
    }
  }

  lemma {:induction false} NonSpaceOfBlank(s: string)
    requires AllSpace(s)
    ensures NonSpace(s) == []
    decreases |s|
  {
    if s != [] {
      NonSpaceOfBlank(s[1..]);
    }
  }

  lemma {:induction false} NonSpaceOfWord(w: string)
    requires forall i :: 0 <= i < |w| ==> !IsSpace(w[i])
    ensures NonSpace(w) == w
    decreases |w|
  {
    if w != [] {
      NonSpaceOfWord(w[1..]);
      ConsTail(w);
    }
  }

  /** str.split() loses only whitespace: its tokens, concatenated, are the
      non-whitespace characters of the text in order. */
  lemma {:induction false} SplitKeepsText(s: string)
    ensures Concat(Split(s)) == NonSpace(s)
    decreases |s|
  {
    var t := TrimStart(s, IsSpace);
    var k := |s| - |t|;
    TakeDrop(s, k);
    NonSpaceAppend(s[..k], t);
    NonSpaceOfBlank(s[..k]);
    if t == [] {
      assert Split(s) == [];
    } else {
      var w := WordPrefix(t);
      var rest := t[|w|..];
      assert Split(s) == [w] + Split(rest);
      SplitKeepsText(rest);
      assert Concat([w] + Split(rest)) == w + Concat(Split(rest)) by {
        assert ([w] + Split(rest))[1..] == Split(rest);
      }
      TakeDrop(t, |w|);
      NonSpaceAppend(w, rest);
      NonSpaceOfWord(w);
    }
  }

  /** Every word splits to itself. */
  lemma {:induction false} SplitWord(w: string)
    requires IsWord(w)
    ensures Split(w) == [w]
  {
    assert WordPrefix(w) == w by {
      assert |WordPrefix(w)| == |w|;
    }
    assert Split([]) == [] by {
      assert TrimStart([], IsSpace) == [];
    }
    assert w[|w|..] == [];
    SplitFromWord(w);
  }

  /** Two words with a whitespace run between them are two tokens. */
  lemma {:induction false} SplitTwoWords(a: string, sp: string, b: string)
    requires IsWord(a) && IsBlank(sp) && IsWord(b)
    ensures Split(a + sp + b) == [a, b]
  {
    SplitAtBlank(a, sp, b);
    SplitWord(a);
    SplitWord(b);
    PairAppend(a, b);
  }

  lemma {:induction false} WydLol()
    ensures IsWord("wyd") && IsBlank("\n") && IsWord("lol")
  {
    var a, sp, b := "wyd", "\n", "lol";
    assert a[0] == 'w' && a[1] == 'y' && a[2] == 'd';
    assert sp[0] == '\n';
    assert b[0] == 'l' && b[1] == 'o' && b[2] == 'l';
  }

  /** A newline separates tokens just as a space does. */
  lemma {:induction false} SplitExample()
    ensures Split("wyd\nlol") == ["wyd", "lol"]
  {
    WydLol();
    assert "wyd" + "\n" + "lol" == "wyd\nlol";
    SplitTwoWords("wyd", "\n", "lol");
  }

  lemma {:induction false} SplitJoinCons(w: string, rest: seq<string>)
    requires IsWord(w) && rest != [] && Split(Join(rest)) == rest
    ensures Split(Join([w] + rest)) == [w] + rest
  {
    assert ([w] + rest)[1..] == rest;
    assert Join([w] + rest) == w + " " + Join(rest);
    SpaceIsBlank();
    SplitAtBlank(w, " ", Join(rest));
    SplitWord(w);
  }

  /** Splitting undoes joining: tokens joined by single spaces split back
      into the same tokens. */
  lemma {:induction false} SplitJoin(words: seq<string>)
    requires forall i :: 0 <= i < |words| ==> IsWord(words[i])
    ensures Split(Join(words)) == words
  {
    if |words| == 0 {
      assert Split([]) == [] by {
        assert TrimStart([], IsSpace) == [];
      }
    } else if |words| == 1 {
      SplitWord(words[0]);
    } else {
      SplitJoin(words[1..]);
      SplitJoinCons(words[0], words[1..]);
      ConsTail(words);
    }
  }

  /** Joining two non-empty lists of tokens puts one space between them. */
  lemma {:induction false} JoinAppend(a: seq<string>, b: seq<string>)
    requires a != [] && b != []
    ensures Join(a + b) == Join(a) + " " + Join(b)
  {
    if |a| > 1 {
      assert (a + b)[1..] == a[1..] + b;
      JoinAppend(a[1..], b);
    }
  }
}
