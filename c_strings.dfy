/** The string routines declared in
    practice/code-practice/intermediate/01_string_manipulation.c (and, with the
    same prototypes, in interview-prep/practice-exercises/intermediate/01_string_functions.c).
    A C string is a `char` buffer holding its characters followed by a NUL; `Str`
    gives the characters, `StrLen` their number (ISO/IEC 9899:2011 section 7.1.1). */
module CStrings {
  import opened Seqs

  const NUL: char := '\0'

  // ---------------------------------------------------------------------
  // C strings inside buffers

  /** The index of the first NUL. */
  function StrLen(s: seq<char>): (n: nat)
    requires NUL in s
    ensures n < |s| && s[n] == NUL && NUL !in s[..n]
  {
    if s[0] == NUL then 0
    else
      assert NUL in s[1..] by { var k :| 0 <= k < |s| && s[k] == NUL; assert s[1..][k - 1] == NUL; }
      var m := StrLen(s[1..]);
      assert s[..m + 1] == [s[0]] + s[1..][..m];
      m + 1
  }

  /** The characters of the C string at the start of `s`. */
  function Str(s: seq<char>): (t: seq<char>)
    requires NUL in s
    ensures NUL !in t && |t| < |s| && |t| == StrLen(s)
  {
    s[..StrLen(s)]
  }

  /** The first NUL is where the characters end: a NUL preceded by no NUL marks the length. */
  lemma StrLenAt(s: seq<char>, n: nat)
    requires n < |s| && s[n] == NUL && NUL !in s[..n]
    ensures StrLen(s) == n
  {
    var m := StrLen(s);
  }

  /** A buffer whose first n + 1 characters are t followed by NUL holds the C string t. */
  lemma StrOfPrefix(s: seq<char>, t: seq<char>)
    requires NUL !in t && |t| < |s| && s[..|t| + 1] == t + [NUL]
    ensures NUL in s && Str(s) == t
  {
    assert s[|t|] == NUL;
    assert s[..|t|] == t;
    StrLenAt(s, |t|);
  }

  // ---------------------------------------------------------------------
  // Lexicographic comparison

  /** The order `strcmp` decides: -1, 0 or 1 as `a` sorts before, equal to or after `b`.
      The terminating NUL sorts below every character, so a proper prefix comes first. */
  function Compare(a: seq<char>, b: seq<char>): (r: int)
    ensures r == -1 || r == 0 || r == 1
  {
    if a == [] && b == [] then 0
    else if a == [] then -1
    else if b == [] then 1
    else if a[0] < b[0] then -1
    else if a[0] > b[0] then 1
    else Compare(a[1..], b[1..])
  }

  /** The result is decided at the first position where the strings differ or one ends. */
  lemma {:induction false} CompareFirstDifference(a: seq<char>, b: seq<char>, i: nat)
    requires i <= |a| && i <= |b| && a[..i] == b[..i]
    requires i == |a| || i == |b| || a[i] != b[i]
    ensures Compare(a, b) == if i == |a| && i == |b| then 0
                             else if i == |a| then -1
                             else if i == |b| then 1
                             else if a[i] < b[i] then -1 else 1
  {
    if i > 0 {
      assert a[0] == a[..i][0] == b[..i][0] == b[0];
      assert a[1..][..i - 1] == a[..i][1..] == b[..i][1..] == b[1..][..i - 1];
      CompareFirstDifference(a[1..], b[1..], i - 1);
    }
  }

  /** Zero exactly for equal strings. */
  lemma {:induction false} CompareZero(a: seq<char>, b: seq<char>)
    ensures Compare(a, b) == 0 <==> a == b
  {
    if a != [] && b != [] && a[0] == b[0] {
      CompareZero(a[1..], b[1..]);
      if a[1..] == b[1..] { assert a == [a[0]] + a[1..] && b == [b[0]] + b[1..]; }
    }
  }

  /** Swapping the operands flips the sign. */
  lemma {:induction false} CompareAntisymmetric(a: seq<char>, b: seq<char>)
    ensures Compare(a, b) == -Compare(b, a)
    ensures Compare(a, b) in {-1, 0, 1}
  {
    if a != [] && b != [] && a[0] == b[0] {
      CompareAntisymmetric(a[1..], b[1..]);
    }
  }

  // ---------------------------------------------------------------------
  // Characters

  predicate IsLower(c: char) { 'a' <= c <= 'z' }
  predicate IsUpper(c: char) { 'A' <= c <= 'Z' }
  predicate IsLetter(c: char) { IsLower(c) || IsUpper(c) }
  predicate IsVowel(c: char)
    ensures IsVowel(c) ==> IsLetter(c)
  {
    c == 'a' || c == 'e' || c == 'i' || c == 'o' || c == 'u' ||
    c == 'A' || c == 'E' || c == 'I' || c == 'O' || c == 'U'
  }

  /** Upper case by the ASCII offset 'a' - 'A' == 32; anything but a lower-case letter stays. */
  function ToUpper(c: char): (u: char)
    ensures IsLower(c) ==> IsUpper(u) && u as int == c as int - 32
    ensures !IsLower(c) ==> u == c
  {
    if IsLower(c) then (c as int - 32) as char else c
  }

  /** Lower case by the ASCII offset; anything but an upper-case letter stays. */
  function ToLower(c: char): (l: char)
    ensures IsUpper(c) ==> IsLower(l) && l as int == c as int + 32
    ensures !IsUpper(c) ==> l == c
  {
    if IsUpper(c) then (c as int + 32) as char else c
  }

  /** Case conversion keeps letters letters, the same letter in the other case. */
  lemma CaseRoundTrip(c: char)
    ensures (IsLetter(c) <==> IsLetter(ToUpper(c))) && (IsLetter(c) <==> IsLetter(ToLower(c)))
    ensures ToUpper(ToUpper(c)) == ToUpper(c) && ToLower(ToLower(c)) == ToLower(c)
    ensures ToLower(ToUpper(c)) == ToLower(c) && ToUpper(ToLower(c)) == ToUpper(c)
    ensures ToUpper(NUL) == NUL && ToLower(NUL) == NUL && ToUpper(' ') == ' ' && ToLower(' ') == ' '
  {
  }

  function MapUpper(s: seq<char>): (r: seq<char>)
    ensures |r| == |s| && forall i :: 0 <= i < |s| ==> r[i] == ToUpper(s[i])
  {
    if s == [] then [] else [ToUpper(s[0])] + MapUpper(s[1..])
  }

  function MapLower(s: seq<char>): (r: seq<char>)
    ensures |r| == |s| && forall i :: 0 <= i < |s| ==> r[i] == ToLower(s[i])
  {
    if s == [] then [] else [ToLower(s[0])] + MapLower(s[1..])
  }

  /** The counts read the string left to right, each step adding its last character. */
  function CountVowels(s: seq<char>): (n: nat)
    ensures n <= |s|
  {
    if s == [] then 0 else CountVowels(s[..|s| - 1]) + (if IsVowel(s[|s| - 1]) then 1 else 0)
  }

  function CountConsonants(s: seq<char>): (n: nat)
    ensures n <= |s|
  {
    if s == [] then 0
    else CountConsonants(s[..|s| - 1]) + (if IsLetter(s[|s| - 1]) && !IsVowel(s[|s| - 1]) then 1 else 0)
  }

  function CountLetters(s: seq<char>): (n: nat)
    ensures n <= |s|
  {
    if s == [] then 0 else CountLetters(s[..|s| - 1]) + (if IsLetter(s[|s| - 1]) then 1 else 0)
  }

  /** Every letter is a vowel or a consonant and nothing else is either. */
  lemma {:induction false} VowelsAndConsonants(s: seq<char>)
    ensures CountVowels(s) + CountConsonants(s) == CountLetters(s)
  {
    if s != [] { VowelsAndConsonants(s[..|s| - 1]); }
  }

  /** The characters of `s` other than spaces, in their order. */
  function NoSpaces(s: seq<char>): (r: seq<char>)
    ensures |r| <= |s|
  {
    if s == [] then []
    else
      var r := NoSpaces(s[..|s| - 1]);
      if s[|s| - 1] == ' ' then r else r + [s[|s| - 1]]
  }

  /** Exactly the characters of `s` other than the space survive. */
  lemma {:induction false} NoSpacesMembers(s: seq<char>)
    ensures ' ' !in NoSpaces(s)
    ensures forall c :: c in NoSpaces(s) <==> c in s && c != ' '
  {
    if s != [] {
      var t := s[..|s| - 1];
      NoSpacesMembers(t);
      assert s == t + [s[|s| - 1]];
    }
  }

  /** A string without spaces is kept, so removing spaces twice is removing them once. */
  lemma {:induction false} NoSpacesIdempotent(s: seq<char>)
    requires ' ' !in s
    ensures NoSpaces(s) == s
  {
    if s != [] {
      NoSpacesIdempotent(s[..|s| - 1]);
      assert s == s[..|s| - 1] + [s[|s| - 1]];
    }
  }

  /** Space removal distributes over concatenation. */
  lemma {:induction false} NoSpacesAppend(s: seq<char>, t: seq<char>)
    ensures NoSpaces(s + t) == NoSpaces(s) + NoSpaces(t)
    decreases |t|
  {
    if t == [] {
      assert s + t == s;
    } else {
      var u := t[..|t| - 1];
      assert (s + t)[..|s + t| - 1] == s + u;
      NoSpacesAppend(s, u);
    }
  }

  /** One step of each count and of the space removal over a growing prefix. */
  lemma VowelStep(s: seq<char>, k: nat)
    requires k < |s|
    ensures CountVowels(s[..k + 1]) == CountVowels(s[..k]) + (if IsVowel(s[k]) then 1 else 0)
  {
    assert s[..k + 1][..k] == s[..k];
  }

  lemma ConsonantStep(s: seq<char>, k: nat)
    requires k < |s|
    ensures CountConsonants(s[..k + 1]) == CountConsonants(s[..k]) + (if IsLetter(s[k]) && !IsVowel(s[k]) then 1 else 0)
  {
    assert s[..k + 1][..k] == s[..k];
  }

  lemma NoSpacesStep(s: seq<char>, k: nat)
    requires k < |s|
    ensures NoSpaces(s[..k + 1]) == NoSpaces(s[..k]) + (if s[k] == ' ' then [] else [s[k]])
  {
    assert s[..k + 1][..k] == s[..k];
  }

  lemma ReverseMembers(s: seq<char>, c: char)
    ensures c in Reverse(s) <==> c in s
  {
    ReverseLength(s);
    if c in s {
      var k :| 0 <= k < |s| && s[k] == c;
      ReverseAt(s, |s| - 1 - k);
    }
    if c in Reverse(s) {
      var k :| 0 <= k < |s| && Reverse(s)[k] == c;
      ReverseAt(s, k);
    }
  }

  // ---------------------------------------------------------------------
  // The routines

  /** `myStrlen`: walks to the NUL. */
  method MyStrlen(str: array<char>) returns (n: nat)
    requires NUL in str[..]
    ensures n < str.Length && str[n] == NUL && forall i :: 0 <= i < n ==> str[i] != NUL
    ensures n == StrLen(str[..])
  {
    ghost var len := StrLen(str[..]);
    n := 0;
    while str[n] != NUL
      invariant 0 <= n <= len
      decreases len - n
      invariant forall i :: 0 <= i < n ==> str[i] != NUL
    {
      assert str[..len][n] == str[n];
      n := n + 1;
    }
  }

  /** `myStrcpy`: copies the characters of `src` and its NUL to the start of `dest`, which
      must have room; copying between overlapping objects is undefined (ISO/IEC 9899:2011
      section 7.24.2.3), so the buffers are distinct. */
  method MyStrcpy(dest: array<char>, src: array<char>)
    requires NUL in src[..] && dest != src
    requires StrLen(src[..]) < dest.Length
    modifies dest
    ensures NUL in dest[..] && Str(dest[..]) == Str(src[..])
    ensures dest[..StrLen(src[..]) + 1] == src[..StrLen(src[..]) + 1]
    ensures dest[StrLen(src[..]) + 1..] == old(dest[StrLen(src[..]) + 1..])
  {
    var n := StrLen(src[..]);
    var i := 0;
    while src[i] != NUL
      invariant 0 <= i <= n
      decreases n - i
      invariant dest[..i] == src[..i]
      invariant dest[n + 1..] == old(dest[n + 1..])
    {
      assert src[..n][i] == src[i];
      dest[i] := src[i];
      i := i + 1;
    }
    dest[i] := NUL;
    assert dest[..n + 1] == src[..n + 1];
    StrOfPrefix(dest[..], Str(src[..]));
  }

  /** `myStrcat`: writes the characters of `src` and its NUL over the NUL of `dest`, which
      must have room for both; the buffers are distinct (ISO/IEC 9899:2011 section 7.24.3.1). */
  method MyStrcat(dest: array<char>, src: array<char>)
    requires NUL in dest[..] && NUL in src[..] && dest != src
    requires StrLen(dest[..]) + StrLen(src[..]) < dest.Length
    modifies dest
    ensures NUL in dest[..] && Str(dest[..]) == old(Str(dest[..])) + Str(src[..])
    ensures StrLen(dest[..]) == old(StrLen(dest[..])) + StrLen(src[..])
    ensures forall k :: StrLen(dest[..]) < k < dest.Length ==> dest[k] == old(dest[k])
  {
    ghost var orig := dest[..];
    var d := MyStrlen(dest);
    var n := StrLen(src[..]);
    var i := 0;
    while src[i] != NUL
      invariant 0 <= i <= n
      decreases n - i
      invariant forall k :: 0 <= k < d ==> dest[k] == orig[k]
      invariant forall k :: 0 <= k < i ==> dest[d + k] == src[k]
      invariant forall k :: d + n < k < dest.Length ==> dest[k] == orig[k]
    {
      assert src[..n][i] == src[i];
      dest[d + i] := src[i];
      i := i + 1;
    }
    dest[d + i] := NUL;
    Concatenated(orig, dest[..], src[..], d, n);
  }

  /** A buffer holding the characters of one C string, then those of another, then a NUL,
      holds their concatenation. */
  lemma Concatenated(orig: seq<char>, now: seq<char>, src: seq<char>, d: nat, n: nat)
    requires NUL in orig && NUL in src && StrLen(orig) == d && StrLen(src) == n
    requires d + n < |now|
    requires forall k :: 0 <= k < d ==> now[k] == orig[k]
    requires forall k :: 0 <= k < n ==> now[d + k] == src[k]
    requires now[d + n] == NUL
    ensures NUL in now && StrLen(now) == d + n && Str(now) == Str(orig) + Str(src)
  {
    SliceCopied(now, orig, 0, d);
    SliceCopied(now, src, d, n);
    Joined(now, Str(orig), Str(src));
  }

  /** Two NUL-free pieces laid side by side and followed by a NUL form one C string. */
  lemma Joined(now: seq<char>, a: seq<char>, b: seq<char>)
    requires NUL !in a && NUL !in b && |a| + |b| < |now|
    requires now[..|a|] == a && now[|a|..|a| + |b|] == b && now[|a| + |b|] == NUL
    ensures NUL in now && StrLen(now) == |a| + |b| && Str(now) == a + b
  {
    assert now[..|a| + |b| + 1] == now[..|a|] + now[|a|..|a| + |b|] + [now[|a| + |b|]];
    StrOfPrefix(now, a + b);
  }

  /** n characters copied to offset `off` form the slice of `now` there. */
  lemma SliceCopied(now: seq<char>, from: seq<char>, off: nat, n: nat)
    requires n <= |from| && off + n <= |now|
    requires forall k :: 0 <= k < n ==> now[off + k] == from[k]
    ensures now[off..off + n] == from[..n]
  {
    forall k | 0 <= k < n
      ensures now[off..off + n][k] == from[..n][k]
    {
      assert now[off + k] == from[k];
    }
  }

  /** `myStrcmp`: lexicographic comparison of the two C strings, -1, 0 or 1. */
  method MyStrcmp(str1: array<char>, str2: array<char>) returns (r: int)
    requires NUL in str1[..] && NUL in str2[..]
    ensures r == Compare(Str(str1[..]), Str(str2[..]))
  {
    ghost var a, b := Str(str1[..]), Str(str2[..]);
    var i := 0;
    while str1[i] != NUL && str1[i] == str2[i]
      invariant 0 <= i <= |a| && i <= |b|
      invariant str1[..i] == str2[..i]
      decreases |a| - i
    {
      i := i + 1;
    }
    assert a[..i] == str1[..i] && b[..i] == str2[..i];
    assert i == |a| <==> str1[i] == NUL by { if i < |a| { assert a[i] == str1[i]; } }
    assert i == |b| <==> str2[i] == NUL by { if i < |b| { assert b[i] == str2[i]; } }
    assert i < |a| && i < |b| ==> a[i] == str1[i] && b[i] == str2[i];
    CompareFirstDifference(a, b, i);
    if str1[i] == str2[i] {
      r := 0;
    } else if str1[i] < str2[i] {
      r := -1;
    } else {
      r := 1;
    }
  }

  /** `reverseString` (the same contract as `myStrrev`): swaps from both ends in place;
      the NUL and everything after it stay. */
  method ReverseString(str: array<char>)
    requires NUL in str[..]
    modifies str
    ensures NUL in str[..] && Str(str[..]) == Reverse(old(Str(str[..])))
    ensures StrLen(str[..]) == old(StrLen(str[..]))
    ensures str[StrLen(str[..])..] == old(str[StrLen(str[..])..])
  {
    ghost var s := Str(str[..]);
    var n := MyStrlen(str);
    ghost var orig := str[..];
    assert s == orig[..n];
    var i := 0;
    while i < n / 2
      invariant 0 <= i <= n / 2
      invariant forall k :: 0 <= k < i ==> str[k] == orig[n - 1 - k] && str[n - 1 - k] == orig[k]
      invariant forall k :: i <= k < n - i ==> str[k] == orig[k]
      invariant forall k :: n <= k < str.Length ==> str[k] == orig[k]
    {
      var temp := str[i];
      str[i] := str[n - 1 - i];
      str[n - 1 - i] := temp;
      i := i + 1;
    }
    ReversedPrefix(orig, str[..], n);
  }

  /** A buffer whose first n characters are those of its old C string of length n, back to
      front, and whose other positions are unchanged, holds the reversed string. */
  lemma ReversedPrefix(orig: seq<char>, now: seq<char>, n: nat)
    requires NUL in orig && StrLen(orig) == n && |now| == |orig|
    requires forall k :: 0 <= k < n ==> now[k] == orig[n - 1 - k]
    requires forall k :: n <= k < |now| ==> now[k] == orig[k]
    ensures NUL in now && Str(now) == Reverse(Str(orig)) && StrLen(now) == n
    ensures now[n..] == orig[n..]
  {
    var s := Str(orig);
    ReverseIff(s, now[..n]);
    ReverseMembers(s, NUL);
    assert now[..n + 1] == now[..n] + [now[n]];
    StrOfPrefix(now, Reverse(s));
  }

  /** `isPalindrome`: compares from both ends, 1 when the string reads the same backwards. */
  method IsPalindrome(str: array<char>) returns (r: int)
    requires NUL in str[..]
    ensures r == 0 || r == 1
    ensures r == 1 <==> Str(str[..]) == Reverse(Str(str[..]))
  {
    ghost var s := Str(str[..]);
    var n := MyStrlen(str);
    ReverseIff(s, s);
    var i := 0;
    while i < n / 2
      invariant 0 <= i <= n / 2
      invariant forall k :: 0 <= k < i ==> s[k] == s[n - 1 - k]
    {
      if str[i] != str[n - 1 - i] {
        assert s[i] != s[n - 1 - i];
        return 0;
      }
      i := i + 1;
    }
    forall k | 0 <= k < n ensures s[k] == s[n - 1 - k] {
      if k >= n / 2 && n - 1 - k < i { }
    }
    return 1;
  }

  /** `toUppercase`: every lower-case letter shifted by the ASCII offset, in place. */
  method ToUppercase(str: array<char>)
    requires NUL in str[..]
    modifies str
    ensures NUL in str[..] && Str(str[..]) == MapUpper(old(Str(str[..])))
    ensures str[StrLen(str[..])..] == old(str[StrLen(str[..])..])
  {
    ghost var s := Str(str[..]);
    var n := MyStrlen(str);
    var i := 0;
    while i < n
      invariant 0 <= i <= n
      invariant forall k :: 0 <= k < i ==> str[k] == ToUpper(old(str[k]))
      invariant forall k :: i <= k < str.Length ==> str[k] == old(str[k])
    {
      if 'a' <= str[i] <= 'z' {
        str[i] := (str[i] as int - 32) as char;
      }
      i := i + 1;
    }
    assert str[..n] == MapUpper(s);
    assert str[..n + 1] == str[..n] + [str[n]];
    StrOfPrefix(str[..], MapUpper(s));
  }

  /** `toLowercase`: every upper-case letter shifted by the ASCII offset, in place. */
  method ToLowercase(str: array<char>)
    requires NUL in str[..]
    modifies str
    ensures NUL in str[..] && Str(str[..]) == MapLower(old(Str(str[..])))
    ensures str[StrLen(str[..])..] == old(str[StrLen(str[..])..])
  {
    ghost var s := Str(str[..]);
    var n := MyStrlen(str);
    var i := 0;
    while i < n
      invariant 0 <= i <= n
      invariant forall k :: 0 <= k < i ==> str[k] == ToLower(old(str[k]))
      invariant forall k :: i <= k < str.Length ==> str[k] == old(str[k])
    {
      if 'A' <= str[i] <= 'Z' {
        str[i] := (str[i] as int + 32) as char;
      }
      i := i + 1;
    }
    assert str[..n] == MapLower(s);
    assert str[..n + 1] == str[..n] + [str[n]];
    StrOfPrefix(str[..], MapLower(s));
  }

  /** `countVowelsConsonants`: the two counts written through the out-pointers; a character
      that is not a letter (a space, a digit) counts as neither. */
  method CountVowelsConsonants(str: array<char>) returns (vowels: nat, consonants: nat)
    requires NUL in str[..]
    ensures vowels == CountVowels(Str(str[..])) && consonants == CountConsonants(Str(str[..]))
    ensures vowels + consonants == CountLetters(Str(str[..]))
  {
    ghost var s := Str(str[..]);
    var n := MyStrlen(str);
    vowels, consonants := 0, 0;
    var i := 0;
    while i < n
      invariant 0 <= i <= n
      invariant vowels == CountVowels(s[..i]) && consonants == CountConsonants(s[..i])
    {
      VowelStep(s, i);
      ConsonantStep(s, i);
      if IsVowel(str[i]) {
        vowels := vowels + 1;
      } else if ('a' <= str[i] <= 'z') || ('A' <= str[i] <= 'Z') {
        consonants := consonants + 1;
      }
      i := i + 1;
    }
    assert s[..n] == s;
    VowelsAndConsonants(s);
  }

  /** `removeSpaces`: shifts the other characters left over the spaces and ends the string
      after them; positions past the new NUL keep what they held. */
  method RemoveSpaces(str: array<char>)
    requires NUL in str[..]
    modifies str
    ensures NUL in str[..] && Str(str[..]) == NoSpaces(old(Str(str[..])))
    ensures forall k :: StrLen(str[..]) < k < str.Length ==> str[k] == old(str[k])
  {
    ghost var orig := str[..];
    ghost var s := Str(orig);
    var n := MyStrlen(str);
    assert orig[..0] == [] && s[..0] == [];
    var i, j := 0, 0;
    while i < n
      invariant 0 <= j <= i <= n
      invariant Compacting(str[..], orig, s, i, j)
    {
      CompactingAt(str[..], orig, s, i, j);
      if str[i] != ' ' {
        ghost var before := str[..];
        str[j] := str[i];
        CompactingKeep(before, str[..], orig, s, i, j);
        j := j + 1;
      } else {
        CompactingSkip(str[..], orig, s, i, j);
      }
      i := i + 1;
    }
    CompactingDone(str[..], orig, s, j);
    str[j] := NUL;
    NoSpacesMembers(s);
    Terminated(str[..], NoSpaces(s));
  }

  /** The state of the compaction after i characters of s = Str(orig) were read: the first j
      positions hold their non-space characters, the positions from j on are untouched. */
  ghost predicate Compacting(buf: seq<char>, orig: seq<char>, s: seq<char>, i: nat, j: nat)
  {
    NUL in orig && s == Str(orig) && i <= |s| && j <= i && |buf| == |orig| &&
    buf[..j] == NoSpaces(s[..i]) && buf[j..] == orig[j..]
  }

  /** The character about to be read is still in place. */
  lemma CompactingAt(buf: seq<char>, orig: seq<char>, s: seq<char>, i: nat, j: nat)
    requires Compacting(buf, orig, s, i, j) && i < |s|
    ensures buf[i] == s[i]
  {
    assert buf[j..][i - j] == orig[j..][i - j];
  }

  /** Reading a space keeps the compaction state with nothing written. */
  lemma CompactingSkip(buf: seq<char>, orig: seq<char>, s: seq<char>, i: nat, j: nat)
    requires Compacting(buf, orig, s, i, j) && i < |s| && s[i] == ' '
    ensures Compacting(buf, orig, s, i + 1, j)
  {
    NoSpacesStep(s, i);
  }

  /** Reading another character and storing it at position j keeps the compaction state. */
  lemma CompactingKeep(before: seq<char>, after: seq<char>, orig: seq<char>, s: seq<char>, i: nat, j: nat)
    requires Compacting(before, orig, s, i, j) && i < |s| && s[i] != ' '
    requires after == before[j := s[i]]
    ensures Compacting(after, orig, s, i + 1, j + 1)
  {
    NoSpacesStep(s, i);
    CompactingAt(before, orig, s, i, j);
    assert after[..j + 1] == before[..j] + [s[i]];
    assert after[j + 1..] == before[j + 1..];
    assert before[j + 1..] == before[j..][1..];
  }

  /** At the NUL the first j positions hold the whole string without its spaces. */
  lemma CompactingDone(buf: seq<char>, orig: seq<char>, s: seq<char>, j: nat)
    requires Compacting(buf, orig, s, |s|, j)
    ensures buf[..j] == NoSpaces(s) && j < |buf|
    ensures forall k :: j < k < |buf| ==> buf[k] == orig[k]
  {
    assert s[..|s|] == s;
    forall k | j < k < |buf| ensures buf[k] == orig[k] {
      assert buf[j..][k - j] == orig[j..][k - j];
    }
  }

  /** A buffer that starts with the characters t and then a NUL holds the C string t. */
  lemma Terminated(now: seq<char>, t: seq<char>)
    requires NUL !in t && |t| < |now| && now[..|t|] == t && now[|t|] == NUL
    ensures NUL in now && Str(now) == t && StrLen(now) == |t|
  {
    assert now[..|t| + 1] == t + [NUL];
    StrOfPrefix(now, t);
  }

  /** A fresh buffer of `capacity` characters holding the C string `s`, every position from
      its NUL on cleared, like an initialised `char` array of that size. */
  method Buffer(s: seq<char>, capacity: nat) returns (b: array<char>)
    requires NUL !in s && |s| < capacity
    ensures fresh(b) && b.Length == capacity
    ensures NUL in b[..] && Str(b[..]) == s
  {
    b := new char[capacity](i requires 0 <= i < capacity => if i < |s| then s[i] else NUL);
    assert b[..|s| + 1] == s + [NUL];
    StrOfPrefix(b[..], s);
  }
}
