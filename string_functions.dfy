/** The example run documented in interview-prep/practice-exercises/intermediate/01_string_functions.c.
    Its six prototypes are those of the string manipulation exercise (`myStrrev` is
    `reverseString`), so the routines are the ones of module CStrings. */
module StringFunctions {
  import opened Seqs
  import opened CStrings

  method LengthExample() returns (n: nat)
    ensures n == 5
  {
    var str := Buffer("Hello", 50);
    n := MyStrlen(str);
  }

  method CopyExample() returns (copied: seq<char>)
    ensures copied == "Hello"
  {
    var src := Buffer("Hello", 50);
    var dest := Buffer("", 50);
    MyStrcpy(dest, src);
    copied := Str(dest[..]);
  }

  /** "Hello" and " World" concatenate to "Hello World", of length 5 + 6. */
  method ConcatExample() returns (concatenated: seq<char>, n: nat)
    ensures concatenated == "Hello World" && n == 11
  {
    var dest := Buffer("Hello", 50);
    var src := Buffer(" World", 50);
    MyStrcat(dest, src);
    concatenated := Str(dest[..]);
    n := MyStrlen(dest);
  }

  /** The documented comparison result -1 names no second operand; "World" is one that
      gives it, since the first characters already differ and 'H' < 'W'. */
  method CompareExample() returns (r: int)
    ensures r == -1
  {
    var str1 := Buffer("Hello", 50);
    var str2 := Buffer("World", 50);
    r := MyStrcmp(str1, str2);
    CompareFirstDifference("Hello", "World", 0);
  }

  method ReverseExample() returns (reversed: seq<char>)
    ensures reversed == "olleH"
  {
    var str := Buffer("Hello", 50);
    ReverseString(str);
    reversed := Str(str[..]);
    Reversed("Hello");
  }

  method PalindromeExample() returns (r: int)
    ensures r == 0
  {
    var str := Buffer("Hello", 50);
    r := IsPalindrome(str);
    ReverseAt("Hello", 0);
  }

  lemma Reversed(s: seq<char>)
    requires s == "Hello"
    ensures Reverse(s) == "olleH"
  {
    ReverseIff(s, "olleH");
  }
}
