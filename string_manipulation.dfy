/** The example run documented in practice/code-practice/intermediate/01_string_manipulation.c,
    each routine applied to a fresh buffer holding "Hello World". */
module StringManipulation {
  import opened Seqs
  import opened CStrings

  const Original: seq<char> := "Hello World"

  method LengthExample() returns (n: nat)
    ensures n == 11
  {
    var str := Buffer(Original, 50);
    n := MyStrlen(str);
  }

  method ReverseExample() returns (reversed: seq<char>)
    ensures reversed == "dlroW olleH"
  {
    var str := Buffer(Original, 50);
    ReverseString(str);
    reversed := Str(str[..]);
    Reversed(Original);
  }

  method PalindromeExample() returns (r: int)
    ensures r == 0
  {
    var str := Buffer(Original, 50);
    r := IsPalindrome(str);
    ReverseAt(Original, 0);
  }

  method CaseExample() returns (upper: seq<char>, lower: seq<char>)
    ensures upper == "HELLO WORLD" && lower == "hello world"
  {
    var str := Buffer(Original, 50);
    ToUppercase(str);
    upper := Str(str[..]);
    Upper(Original);
    ToLowercase(str);
    lower := Str(str[..]);
    Lower(upper);
  }

  method CountExample() returns (vowels: nat, consonants: nat)
    ensures vowels == 3 && consonants == 7
  {
    var str := Buffer(Original, 50);
    vowels, consonants := CountVowelsConsonants(str);
    Vowels(Original);
    Consonants(Original);
  }

  method RemoveSpacesExample() returns (compact: seq<char>)
    ensures compact == "HelloWorld"
  {
    var str := Buffer(Original, 50);
    RemoveSpaces(str);
    compact := Str(str[..]);
    WithoutSpaces(Original);
  }

  lemma Reversed(s: seq<char>)
    requires s == "Hello World"
    ensures Reverse(s) == "dlroW olleH"
  {
    ReverseIff(s, "dlroW olleH");
  }

  lemma Upper(s: seq<char>)
    requires s == "Hello World"
    ensures MapUpper(s) == "HELLO WORLD"
  {
    assert forall i :: 0 <= i < 11 ==> MapUpper(s)[i] == "HELLO WORLD"[i];
  }

  lemma Lower(s: seq<char>)
    requires s == "HELLO WORLD"
    ensures MapLower(s) == "hello world"
  {
    forall i | 0 <= i < 11 ensures MapLower(s)[i] == "hello world"[i] {
      assert MapLower(s)[i] == ToLower(s[i]);
    }
  }

  lemma Vowels(s: seq<char>)
    requires s == "Hello World"
    ensures CountVowels(s) == 3
  {
    assert s[..0] == [];
    VowelStep(s, 0); VowelStep(s, 1); VowelStep(s, 2); VowelStep(s, 3); VowelStep(s, 4); VowelStep(s, 5);
    VowelStep(s, 6); VowelStep(s, 7); VowelStep(s, 8); VowelStep(s, 9); VowelStep(s, 10);
    assert s[..11] == s;
  }

  lemma Consonants(s: seq<char>)
    requires s == "Hello World"
    ensures CountConsonants(s) == 7
  {
    assert s[..0] == [];
    ConsonantStep(s, 0); ConsonantStep(s, 1); ConsonantStep(s, 2); ConsonantStep(s, 3);
    ConsonantStep(s, 4); ConsonantStep(s, 5); ConsonantStep(s, 6); ConsonantStep(s, 7);
    ConsonantStep(s, 8); ConsonantStep(s, 9); ConsonantStep(s, 10);
    assert s[..11] == s;
  }

  lemma FirstWord(s: seq<char>)
    requires s == "Hello World"
    ensures NoSpaces(s[..6]) == "Hello"
  {
    assert s[..0] == [];
    NoSpacesStep(s, 0); NoSpacesStep(s, 1); NoSpacesStep(s, 2);
    NoSpacesStep(s, 3); NoSpacesStep(s, 4); NoSpacesStep(s, 5);
  }

  lemma WithoutSpaces(s: seq<char>)
    requires s == "Hello World"
    ensures NoSpaces(s) == "HelloWorld"
  {
    FirstWord(s);
    NoSpacesStep(s, 6); NoSpacesStep(s, 7); NoSpacesStep(s, 8); NoSpacesStep(s, 9); NoSpacesStep(s, 10);
    assert s[..11] == s;
  }
}
