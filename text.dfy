/** String operations the staging code and the scripts rely on, stated rune by rune:
    Go's strings.TrimSpace, strings.ToUpper, strings.EqualFold (against ASCII keywords) and
    byte-order string comparison; Python's `in`, str.replace, str.zfill and slicing. */
module Text {
  import Seqs

  /** Go's unicode.IsSpace: the Unicode White_Space runes. */
  predicate IsSpace(c: char)
  {
    c == '\t' || c == '\n' || c == '\U{000B}' || c == '\U{000C}' || c == '\r' || c == ' '
    || c == '\U{0085}' || c == '\U{00A0}' || c == '\U{1680}' || ('\U{2000}' <= c <= '\U{200A}')
    || c == '\U{2028}' || c == '\U{2029}' || c == '\U{202F}' || c == '\U{205F}' || c == '\U{3000}'
  }

  /** Length of the run of white space that starts s. */
  function LeadingSpace(s: string): (n: nat)
    ensures n <= |s|
  {
    if s != [] && IsSpace(s[0]) then 1 + LeadingSpace(s[1..]) else 0
  }

  /** The leading run is white space and is maximal. */
  lemma {:induction false} LeadingSpaceSpec(s: string)
    ensures forall k :: 0 <= k < LeadingSpace(s) ==> IsSpace(s[k])
    ensures LeadingSpace(s) == |s| || !IsSpace(s[LeadingSpace(s)])
  {
    if s != [] && IsSpace(s[0]) {
      LeadingSpaceSpec(s[1..]);
      assert forall k :: 1 <= k < |s| ==> s[1..][k - 1] == s[k];
    }
  }

  /** Length of the run of white space that ends s. */
  function TrailingSpace(s: string): (n: nat)
    ensures n <= |s|
  {
    if s != [] && IsSpace(s[|s| - 1]) then 1 + TrailingSpace(s[..|s| - 1]) else 0
  }

  /** The trailing run is white space and is maximal. */
  lemma {:induction false} TrailingSpaceSpec(s: string)
    ensures forall k :: |s| - TrailingSpace(s) <= k < |s| ==> IsSpace(s[k])
    ensures TrailingSpace(s) == |s| || !IsSpace(s[|s| - 1 - TrailingSpace(s)])
  {
    if s != [] && IsSpace(s[|s| - 1]) {
      TrailingSpaceSpec(s[..|s| - 1]);
      assert forall k :: 0 <= k < |s| - 1 ==> s[..|s| - 1][k] == s[k];
    }
  }

  /** strings.TrimSpace: s without its leading and trailing white space. */
  function TrimSpace(s: string): (r: string)
    ensures |r| <= |s|
  {
    var lead := LeadingSpace(s);
    var rest := s[lead..];
    rest[..|rest| - TrailingSpace(rest)]
  }

  /** TrimSpace cuts out a slice of s, and everything before and after that slice is white space. */
  lemma TrimSpaceSpec(s: string)
    ensures LeadingSpace(s) + |TrimSpace(s)| <= |s|
    ensures TrimSpace(s) == s[LeadingSpace(s)..LeadingSpace(s) + |TrimSpace(s)|]
    ensures forall k :: 0 <= k < LeadingSpace(s) ==> IsSpace(s[k])
    ensures forall k :: LeadingSpace(s) + |TrimSpace(s)| <= k < |s| ==> IsSpace(s[k])
  {
    var lead := LeadingSpace(s);
    var rest := s[lead..];
    LeadingSpaceSpec(s);
    TrailingSpaceSpec(rest);
    var m := |rest| - TrailingSpace(rest);
    assert TrimSpace(s) == rest[..m] == s[lead..lead + m];
    forall k | lead + m <= k < |s|
      ensures IsSpace(s[k])
    {
      assert s[k] == rest[k - lead];
    }
  }

  /** The trimmed string is empty or starts and ends with a rune that is not white space. */
  lemma TrimSpaceEnds(s: string)
    ensures TrimSpace(s) == [] || (!IsSpace(TrimSpace(s)[0]) && !IsSpace(TrimSpace(s)[|TrimSpace(s)| - 1]))
  {
    var lead := LeadingSpace(s);
    var rest := s[lead..];
    var m := |rest| - TrailingSpace(rest);
    if m > 0 {
      LeadingSpaceSpec(s);
      TrailingSpaceSpec(rest);
      assert TrimSpace(s) == rest[..m];
      assert rest[..m][0] == rest[0] && rest[..m][m - 1] == rest[m - 1];
    }
  }

  /** Trimming leaves nothing exactly when the string is all white space. */
  lemma TrimSpaceEmpty(s: string)
    ensures TrimSpace(s) == [] <==> forall k :: 0 <= k < |s| ==> IsSpace(s[k])
  {
    TrimSpaceSpec(s);
    TrimSpaceEnds(s);
    if TrimSpace(s) != [] {
      assert TrimSpace(s)[0] == s[LeadingSpace(s)];
    }
  }

  /** A string with no white space at either end is its own trimmed form, so trimming twice is trimming once. */
  lemma TrimSpaceIdempotent(s: string)
    ensures TrimSpace(TrimSpace(s)) == TrimSpace(s)
  {
    var t := TrimSpace(s);
    TrimSpaceEnds(s);
    assert LeadingSpace(t) == 0;
    assert TrailingSpace(t) == 0;
  }

  /** unicode.ToUpper for every rune whose upper case is ASCII: a-z, U+0131 (dotless i) and U+017F (long s).
      Any other rune is kept; Go may map it to another non-ASCII rune, which changes no comparison with an
      ASCII word. */
  function UpperRune(c: char): (u: char)
    ensures 'a' <= c <= 'z' ==> u as int == c as int - 32
    ensures u != c ==> ('a' <= c <= 'z' || c == '\U{0131}' || c == '\U{017F}')
  {
    if 'a' <= c <= 'z' then (c as int - 32) as char
    else if c == '\U{0131}' then 'I'
    else if c == '\U{017F}' then 'S'
    else c
  }

  /** strings.ToUpper, rune by rune. */
  function ToUpper(s: string): (r: string)
    ensures |r| == |s|
  {
    seq(|s|, i requires 0 <= i < |s| => UpperRune(s[i]))
  }

  /** The runes that UpperRune changes. */
  predicate Cased(c: char)
  {
    'a' <= c <= 'z' || c == '\U{0131}' || c == '\U{017F}'
  }

  /** Upper-casing leaves no a-z rune behind, and it leaves a string unchanged exactly when the string has
      no rune that it maps. */
  lemma ToUpperFixed(s: string)
    ensures forall i :: 0 <= i < |s| ==> !('a' <= ToUpper(s)[i] <= 'z')
    ensures ToUpper(s) == s <==> forall i :: 0 <= i < |s| ==> !Cased(s[i])
  {
    if ToUpper(s) == s {
      forall i | 0 <= i < |s|
        ensures !Cased(s[i])
      {
        assert UpperRune(s[i]) == s[i];
      }
    }
  }

  /** Upper-casing is idempotent. */
  lemma ToUpperIdempotent(s: string)
    ensures ToUpper(ToUpper(s)) == ToUpper(s)
  {
    assert forall i :: 0 <= i < |s| ==> UpperRune(UpperRune(s[i])) == UpperRune(s[i]);
  }

  /** White space is never a cased rune. */
  lemma UpperKeepsSpace(c: char)
    ensures IsSpace(UpperRune(c)) <==> IsSpace(c)
  {
  }

  /** Upper-casing slices commute. */
  lemma ToUpperSlice(s: string, a: nat, b: nat)
    requires a <= b <= |s|
    ensures ToUpper(s)[a..b] == ToUpper(s[a..b])
  {
  }

  lemma {:induction false} LeadingSpaceUpper(s: string)
    ensures LeadingSpace(ToUpper(s)) == LeadingSpace(s)
  {
    if s != [] {
      assert ToUpper(s)[0] == UpperRune(s[0]);
      UpperKeepsSpace(s[0]);
      ToUpperSlice(s, 1, |s|);
      assert ToUpper(s)[1..] == ToUpper(s[1..]);
      LeadingSpaceUpper(s[1..]);
    }
  }

  lemma {:induction false} TrailingSpaceUpper(s: string)
    ensures TrailingSpace(ToUpper(s)) == TrailingSpace(s)
  {
    if s != [] {
      assert ToUpper(s)[|s| - 1] == UpperRune(s[|s| - 1]);
      UpperKeepsSpace(s[|s| - 1]);
      ToUpperSlice(s, 0, |s| - 1);
      assert ToUpper(s)[..|s| - 1] == ToUpper(s[..|s| - 1]);
      TrailingSpaceUpper(s[..|s| - 1]);
    }
  }

  /** White space is never a cased rune, so trimming and upper-casing can be done in either order. */
  lemma TrimSpaceUpper(s: string)
    ensures TrimSpace(ToUpper(s)) == ToUpper(TrimSpace(s))
  {
    var u := ToUpper(s);
    LeadingSpaceUpper(s);
    var lead := LeadingSpace(s);
    var rest := s[lead..];
    ToUpperSlice(s, lead, |s|);
    assert u[lead..] == ToUpper(rest);
    TrailingSpaceUpper(rest);
    var keep := |rest| - TrailingSpace(rest);
    ToUpperSlice(rest, 0, keep);
    assert TrimSpace(u) == ToUpper(rest)[..keep];
    assert TrimSpace(s) == rest[..keep];
  }

  /** Whether rune c is in the simple case-folding orbit of the ASCII rune k, as strings.EqualFold
      compares them (k, K and U+212A KELVIN SIGN fold together; so do s, S and U+017F LONG S). */
  predicate FoldsTo(c: char, k: char)
  {
    c == k
    || ('a' <= k <= 'z' && c as int == k as int - 32)
    || ('A' <= k <= 'Z' && c as int == k as int + 32)
    || ((k == 's' || k == 'S') && (c == 's' || c == 'S' || c == '\U{017F}'))
    || ((k == 'k' || k == 'K') && (c == 'k' || c == 'K' || c == '\U{212A}'))
  }

  /** strings.EqualFold(s, word) for an ASCII word. */
  predicate EqualFold(s: string, word: string)
  {
    if s == [] then word == []
    else word != [] && FoldsTo(s[0], word[0]) && EqualFold(s[1..], word[1..])
  }

  /** EqualFold compares rune by rune, so the lengths agree and every rune folds to the word's. */
  lemma {:induction false} EqualFoldSpec(s: string, word: string)
    ensures EqualFold(s, word) <==> |s| == |word| && forall i :: 0 <= i < |s| ==> FoldsTo(s[i], word[i])
  {
    if s != [] && word != [] {
      EqualFoldSpec(s[1..], word[1..]);
      if |s| == |word| && forall i :: 0 <= i < |s| ==> FoldsTo(s[i], word[i]) {
        assert forall i :: 0 <= i < |s| - 1 ==> s[1..][i] == s[i + 1] && word[1..][i] == word[i + 1];
      }
    }
  }

  /** For an upper-case letter k, a rune other than U+0131 and U+212A upper-cases to k exactly when it
      folds to k. */
  lemma UpperRuneFolds(c: char, k: char)
    requires 'A' <= k <= 'Z' && c != '\U{0131}' && c != '\U{212A}'
    ensures UpperRune(c) == k <==> FoldsTo(c, k)
  {
  }

  /** Comparing the upper-cased string with an upper-case ASCII word, as measureMap does, agrees with
      strings.EqualFold, except on U+0131 (which upper-cases to I but does not fold to it) and U+212A (which
      folds to K but is its own upper case). */
  lemma {:induction false} UpperAgreesWithFold(s: string, word: string)
    requires forall i :: 0 <= i < |word| ==> 'A' <= word[i] <= 'Z'
    requires forall i :: 0 <= i < |s| ==> s[i] != '\U{0131}' && s[i] != '\U{212A}'
    ensures ToUpper(s) == word <==> EqualFold(s, word)
  {
    EqualFoldSpec(s, word);
    if |s| == |word| {
      forall i | 0 <= i < |s|
        ensures UpperRune(s[i]) == word[i] <==> FoldsTo(s[i], word[i])
      {
        UpperRuneFolds(s[i], word[i]);
      }
      if forall i :: 0 <= i < |s| ==> FoldsTo(s[i], word[i]) {
        assert forall i :: 0 <= i < |s| ==> ToUpper(s)[i] == word[i];
      }
    }
  }

  /** Every word equals itself ignoring case. */
  lemma {:induction false} EqualFoldRefl(word: string)
    ensures EqualFold(word, word)
  {
    if word != [] {
      EqualFoldRefl(word[1..]);
    }
  }

  /** Python's `pat in s`: pat occurs in s as a contiguous substring. */
  predicate Contains(s: string, pat: string)
  {
    pat <= s || (s != [] && Contains(s[1..], pat))
  }

  /** Contains means some position i where pat starts. */
  lemma {:induction false} ContainsAt(s: string, pat: string)
    ensures Contains(s, pat) <==> exists i :: 0 <= i <= |s| && pat <= s[i..]
  {
    if s == [] {
      assert s[0..] == s;
    } else {
      ContainsAt(s[1..], pat);
      assert s[0..] == s;
      assert forall i :: 1 <= i <= |s| ==> s[i..] == s[1..][i - 1..];
    }
  }

  /** A pattern longer than the string cannot occur in it. */
  lemma {:induction false} ContainsLength(s: string, pat: string)
    ensures Contains(s, pat) ==> |pat| <= |s|
  {
    if s != [] {
      ContainsLength(s[1..], pat);
    }
  }

  /** `any(p in s for p in pats)`. */
  predicate ContainsAny(s: string, pats: seq<string>)
  {
    |pats| > 0 && (ContainsAny(s, pats[..|pats| - 1]) || Contains(s, pats[|pats| - 1]))
  }

  /** ContainsAny holds exactly when one of the patterns occurs. */
  lemma {:induction false} ContainsAnySpec(s: string, pats: seq<string>)
    ensures ContainsAny(s, pats) <==> exists i :: 0 <= i < |pats| && Contains(s, pats[i])
  {
    if |pats| > 0 {
      var pre := pats[..|pats| - 1];
      ContainsAnySpec(s, pre);
      assert forall i :: 0 <= i < |pre| ==> pre[i] == pats[i];
    }
  }

  /** Python's str.replace(pat, rep) for a non-empty pat: occurrences are replaced left to right, without overlap. */
  function Replace(s: string, pat: string, rep: string): (r: string)
    requires |pat| > 0
    decreases |s|
  {
    if |s| < |pat| then s
    else if pat <= s then rep + Replace(s[|pat|..], pat, rep)
    else [s[0]] + Replace(s[1..], pat, rep)
  }

  /** Replacement leaves a string without an occurrence unchanged. */
  lemma {:induction false} ReplaceAbsent(s: string, pat: string, rep: string)
    requires |pat| > 0 && !Contains(s, pat)
    ensures Replace(s, pat, rep) == s
    decreases |s|
  {
    if |s| >= |pat| {
      ReplaceAbsent(s[1..], pat, rep);
      assert s == [s[0]] + s[1..];
    }
  }

  /** Deleting occurrences never lengthens a string. */
  lemma {:induction false} RemoveShortens(s: string, pat: string)
    requires |pat| > 0
    ensures |Replace(s, pat, "")| <= |s|
    decreases |s|
  {
    if |s| >= |pat| {
      if pat <= s {
        RemoveShortens(s[|pat|..], pat);
      } else {
        RemoveShortens(s[1..], pat);
      }
    }
  }

  /** n copies of '0'. */
  function Zeros(n: nat): (r: string)
    ensures |r| == n && forall i :: 0 <= i < n ==> r[i] == '0'
  {
    seq(n, i => '0')
  }

  /** Python's str.zfill(width): pad with '0' on the left to width, after a leading sign if there is one. */
  function ZFill(s: string, width: nat): (r: string)
  {
    if |s| >= width then s
    else if s != [] && (s[0] == '+' || s[0] == '-') then [s[0]] + Zeros(width - |s|) + s[1..]
    else Zeros(width - |s|) + s
  }

  /** zfill never shortens, reaches the width, and keeps the text it pads. */
  lemma ZFillShape(s: string, width: nat)
    ensures |ZFill(s, width)| == if |s| >= width then |s| else width
    ensures |s| >= width ==> ZFill(s, width) == s
    ensures (s == [] || (s[0] != '+' && s[0] != '-')) && |s| < width ==>
              ZFill(s, width) == Zeros(width - |s|) + s
  {
  }

  /** Padding is idempotent: a padded identifier is already wide enough. */
  lemma ZFillIdempotent(s: string, width: nat)
    ensures ZFill(ZFill(s, width), width) == ZFill(s, width)
  {
    ZFillShape(s, width);
  }

  /** Python's s[a:b] for non-negative bounds: both ends are clamped to the length. */
  function Slice(s: string, a: nat, b: nat): (r: string)
    ensures |r| == (if b <= |s| then b else |s|) - (if a <= |s| then a else |s|) || (|r| == 0 && b <= a)
    ensures a <= b <= |s| ==> r == s[a..b]
  {
    var lo := if a <= |s| then a else |s|;
    var hi := if b <= |s| then b else |s|;
    if lo <= hi then s[lo..hi] else []
  }

  /** Go's `<` on strings: byte order of the UTF-8 encodings, which is the code-point order of the runes. */
  predicate Less(a: string, b: string)
  {
    if a == [] then b != []
    else if b == [] then false
    else if a[0] != b[0] then a[0] < b[0]
    else Less(a[1..], b[1..])
  }

  lemma {:induction false} LessIrreflexive(a: string)
    ensures !Less(a, a)
  {
    if a != [] {
      LessIrreflexive(a[1..]);
    }
  }

  lemma {:induction false} LessAsymmetric(a: string, b: string)
    ensures Less(a, b) ==> !Less(b, a)
  {
    if a != [] && b != [] && a[0] == b[0] {
      LessAsymmetric(a[1..], b[1..]);
    }
  }

  lemma {:induction false} LessTransitive(a: string, b: string, c: string)
    requires Less(a, b) && Less(b, c)
    ensures Less(a, c)
  {
    if a != [] && a[0] == b[0] && b[0] == c[0] {
      LessTransitive(a[1..], b[1..], c[1..]);
    }
  }

  lemma {:induction false} LessTotal(a: string, b: string)
    ensures a == b || Less(a, b) || Less(b, a)
  {
    if a != [] && b != [] && a[0] == b[0] {
      LessTotal(a[1..], b[1..]);
      assert a == [a[0]] + a[1..] && b == [b[0]] + b[1..];
    }
  }

  /** Non-decreasing in Go's string order. */
  ghost predicate Sorted(s: seq<string>)
  {
    forall i, j :: 0 <= i < j < |s| ==> !Less(s[j], s[i])
  }

  /** Strictly increasing in Go's string order, hence free of duplicates. */
  ghost predicate StrictlySorted(s: seq<string>)
  {
    forall i, j :: 0 <= i < j < |s| ==> Less(s[i], s[j])
  }

  /** Inserts x before the first element not smaller than it. */
  function InsertSorted(x: string, s: seq<string>): (r: seq<string>)
    ensures |r| == |s| + 1
    ensures multiset(r) == multiset(s) + multiset{x}
  {
    if s == [] || !Less(s[0], x) then
      [x] + s
    else
      assert s == [s[0]] + s[1..];
      [s[0]] + InsertSorted(x, s[1..])
  }

  /** Insertion adds x and nothing else. */
  lemma {:induction false} InsertSortedMembers(x: string, s: seq<string>)
    ensures forall y :: y in InsertSorted(x, s) <==> y == x || y in s
  {
    if s != [] && Less(s[0], x) {
      assert s == [s[0]] + s[1..];
      InsertSortedMembers(x, s[1..]);
    }
  }

  /** A head no element of a sorted tail is smaller than gives a sorted sequence. */
  lemma SortedConsString(h: string, rest: seq<string>)
    requires Sorted(rest)
    requires forall y :: y in rest ==> !Less(y, h)
    ensures Sorted([h] + rest)
  {
    var r := [h] + rest;
    forall i, j | 0 <= i < j < |r|
      ensures !Less(r[j], r[i])
    {
      assert r[j] == rest[j - 1] && rest[j - 1] in rest;
      if i > 0 {
        assert r[i] == rest[i - 1];
      }
    }
  }

  /** Insertion keeps a sequence sorted. */
  lemma {:induction false} InsertSortedSorted(x: string, s: seq<string>)
    requires Sorted(s)
    ensures Sorted(InsertSorted(x, s))
  {
    if s == [] || !Less(s[0], x) {
      forall y | y in s
        ensures !Less(y, x)
      {
        var j :| 0 <= j < |s| && s[j] == y;
        if j > 0 {
          assert !Less(y, s[0]);
        }
        LessTotal(x, s[0]);
        LessTotal(s[0], y);
        if Less(x, s[0]) && Less(s[0], y) {
          LessTransitive(x, s[0], y);
        }
        LessAsymmetric(x, y);
        LessIrreflexive(x);
      }
      SortedConsString(x, s);
    } else {
      var tail := s[1..];
      assert s == [s[0]] + tail;
      InsertSortedSorted(x, tail);
      var rest := InsertSorted(x, tail);
      InsertSortedMembers(x, tail);
      LessAsymmetric(s[0], x);
      forall y | y in rest
        ensures !Less(y, s[0])
      {
        if y != x {
          var j :| 0 <= j < |tail| && tail[j] == y;
          assert s[j + 1] == y;
        }
      }
      SortedConsString(s[0], rest);
    }
  }

  /** sort.Strings: a permutation of s in non-decreasing order. */
  function SortStrings(s: seq<string>): (r: seq<string>)
    ensures Sorted(r)
    ensures multiset(r) == multiset(s)
    ensures |r| == |s|
  {
    if s == [] then []
    else
      assert s == [s[0]] + s[1..];
      var rest := SortStrings(s[1..]);
      InsertSortedSorted(s[0], rest);
      InsertSorted(s[0], rest)
  }

  /** Sorting a duplicate-free list gives a strictly increasing one. */
  lemma SortDistinctIsStrict(s: seq<string>)
    requires forall i, j :: 0 <= i < j < |s| ==> s[i] != s[j]
    ensures StrictlySorted(SortStrings(s))
  {
    var r := SortStrings(s);
    forall i, j | 0 <= i < j < |r|
      ensures Less(r[i], r[j])
    {
      Seqs.DistinctMultiset(s, r, i, j);
      LessTotal(r[i], r[j]);
    }
  }

  /** There is only one strictly increasing list of a given set of strings: the sorted state list does not
      depend on the order in which the set was enumerated. */
  lemma {:induction false} StrictlySortedUnique(a: seq<string>, b: seq<string>)
    requires StrictlySorted(a) && StrictlySorted(b)
    requires forall x :: x in a <==> x in b
    ensures a == b
  {
    if a != [] && b != [] {
      assert a[0] in a && b[0] in b;
      if a[0] != b[0] {
        var i :| 0 <= i < |b| && b[i] == a[0];
        var j :| 0 <= j < |a| && a[j] == b[0];
        assert Less(b[0], a[0]) && Less(a[0], b[0]);
        LessAsymmetric(b[0], a[0]);
        assert false;
      }
      LessIrreflexive(a[0]);
      forall x | x in a[1..]
        ensures x in b[1..]
      {
        var i :| 0 <= i < |a| - 1 && a[1..][i] == x;
        assert a[i + 1] == x && x in a;
        var k :| 0 <= k < |b| && b[k] == x;
        assert k != 0;
        assert b[1..][k - 1] == x;
      }
      forall x | x in b[1..]
        ensures x in a[1..]
      {
        var i :| 0 <= i < |b| - 1 && b[1..][i] == x;
        assert b[i + 1] == x && x in b;
        var k :| 0 <= k < |a| && a[k] == x;
        assert k != 0;
        assert a[1..][k - 1] == x;
      }
      StrictlySortedUnique(a[1..], b[1..]);
      assert a == [a[0]] + a[1..] && b == [b[0]] + b[1..];
    } else {
      SameMembersBothEmpty(a, b);
    }
  }

  lemma SameMembersBothEmpty(a: seq<string>, b: seq<string>)
    requires forall x :: x in a <==> x in b
    ensures a == [] <==> b == []
  {
    if a != [] {
      assert a[0] in a;
    }
    if b != [] {
      assert b[0] in b;
    }
  }
}
