# C practice programs: lists, strings, arrays and bit tricks

This project models the core of a collection of small C exercise programs and proves properties of the models in Dafny. The programs are:

- A singly linked list: a `Node {data, next}` chain owned by a `LinkedList {head, size}`. Its fourteen operations are create, insert (front, end, position), delete (front, end, position), search, display, length, reverse, empty test and free.
- The string routines of the two string exercises: length, copy, concatenation, comparison, in-place reversal, the palindrome test, case conversion, vowel and consonant counts and space removal. Strings are NUL-terminated `char` buffers.
- The array exercise: maximum, minimum, sum, even and odd counts, and in-place reversal.
- The bit tricks: power-of-two test, Kernighan's bit count, the XOR swap, parity, branchless abs, min and max.
- The three swaps of the pointer-swap lesson.
- `doubleArray`, which changes an array through a pointer.
- The four arithmetic functions called through the function pointer `operation`.

How the C is modelled:

- **`int`.** A C `int` is the newtype `CInt.int32`. Signed overflow is undefined behaviour in C, so every member that does arithmetic excludes it with a precondition. The one exception is `BitwiseTricks.CountSetBits`, which models the overflow of the code as written as an `Err(SignedOverflow)` result (see "## Findings"). Bitwise operators act on the two's-complement bit pattern (`CInt.Bits`).
- **Pointers.** An `int *` is a `CInt.Cell` object, so two aliasing pointers are one object. An array is a Dafny `array`, and a C string is an `array<char>` holding a NUL.
- **Linked list.** Nodes are heap objects. The list keeps ghost state: its node sequence `Nodes`, the values `Contents` and the footprint `Repr`. `Valid()` ties these to the `next` pointers and to `size`.
- **Errors.** Positions in the list count from 0. Insert positions are valid in 0 .. size and delete positions in 0 .. size - 1. A refused call returns `Err` and leaves the list unchanged. A search that fails returns `None`.
- **Specification functions.** Each array, string and list routine is proved against a sequence function: `Str`, `Reverse`, `MapUpper`, `NoSpaces`, `InsertAt`, `RemoveAt`, `IndexOf`, `Sum` and `Doubled`. Lemmas prove that function's own properties.
- **Example runs.** The example runs written in the programs' comments are proved as methods on buffers built from the literals.

## Model

| member | source | states |
|---|---|---|
| CInt.Cell.constructor | loopholes/01_pointer_swap_trick.c:17 | a cell holds the `int` it was created with |
| CInt.Bits | loopholes/03_bitwise_tricks.c:5 | the bit pattern is the unique number below 2^32 congruent to the value, and its top bit is the sign |
| CInt.OfBits | loopholes/03_bitwise_tricks.c:12 | converts a bit pattern back to the `int` that has it; Bits inverts it |
| CInt.OfBitsOfBits | loopholes/03_bitwise_tricks.c:12 | converting to bits and back gives the original `int` |
| CInt.BitsPred | loopholes/03_bitwise_tricks.c:12 | decrementing a nonzero `int` other than INT_MIN decrements its bit pattern |
| CInt.And | loopholes/03_bitwise_tricks.c:5 | bitwise and is no larger than either operand |
| CInt.Xor | loopholes/03_bitwise_tricks.c:21-23 | bitwise exclusive or of two bit patterns, one bit at a time from the lowest; the result is at most the sum of the operands |
| CInt.AndLowBit | loopholes/03_bitwise_tricks.c:29 | and-ing with 1 gives the lowest bit, the value mod 2 |
| CInt.AndOnes | loopholes/03_bitwise_tricks.c:40 | and-ing with an all-ones mask wider than the value keeps it |
| CInt.XorSelf | loopholes/03_bitwise_tricks.c:21-23 | x xor x is 0 |
| CInt.XorComm | loopholes/03_bitwise_tricks.c:21-23 | xor is commutative |
| CInt.XorCancel | loopholes/03_bitwise_tricks.c:21-23 | xor-ing twice with the same operand restores the value |
| CInt.XorOnes | loopholes/03_bitwise_tricks.c:35 | xor with the all-ones mask is the ones' complement |
| CInt.LowBit | loopholes/03_bitwise_tricks.c:12 | the value of the lowest set bit of a positive number, between 1 and the number |
| CInt.ClearsLowBit | loopholes/03_bitwise_tricks.c:12 | u and (u - 1) is u with its lowest set bit taken away |
| CInt.ClearLowestSetBit | loopholes/03_bitwise_tricks.c:12 | u and (u - 1) is u minus its lowest set bit, so it has exactly one set bit fewer than u |
| CInt.PowerOfTwoCriterion | loopholes/03_bitwise_tricks.c:5 | for positive u, u and (u - 1) is 0 exactly when u is a power of two (both directions) |
| CInt.PopCount | loopholes/03_bitwise_tricks.c:9-16 | the number of 1 bits of a pattern, the count count_set_bits computes; it is 0 exactly for 0 and never exceeds the value |
| CInt.PopCountBound | loopholes/03_bitwise_tricks.c:9-16 | a value below 2^k has at most k set bits |
| CInt.BitAnd | loopholes/03_bitwise_tricks.c:5 | C's `&` on `int` (also at lines 12, 29, 40 and 44): the result's bit pattern is the bitwise and of the operands' patterns |
| CInt.BitXor | loopholes/03_bitwise_tricks.c:21-23 | C's `^` on `int` (also at lines 35, 40 and 44): the result's bit pattern is the exclusive or of the operands' patterns |
| CInt.BitXorCancel | loopholes/03_bitwise_tricks.c:21-23 | on `int`, xor-ing twice with the same operand restores the value, from either side |
| CInt.BitXorSelf | loopholes/01_pointer_swap_trick.c:21-23 | on `int`, x xor x is 0 |
| CInt.BitAndMinusOne | loopholes/03_bitwise_tricks.c:40 | and-ing with the all-ones mask -1 keeps the value, and-ing with 0 clears it |
| BitwiseTricks.IsPowerOfTwo | loopholes/03_bitwise_tricks.c:4-6 | returns 1 or 0, and 1 exactly when n is a power of two (nonpositive n give 0) |
| BitwiseTricks.PowerOfTwoExamples | loopholes/03_bitwise_tricks.c:49-52 | 1, 2, 4, 8 and 16 are powers of two; 3, 5 and 7 and every n <= 0 are not |
| BitwiseTricks.CountSetBits | loopholes/03_bitwise_tricks.c:9-16 | as written on signed `int`: the number of set bits for n >= 0, and a signed overflow exactly when n < 0 |
| BitwiseTricks.CountSetBitsUnsigned | loopholes/03_bitwise_tricks.c:9-16 | the same loop on the unsigned bit pattern returns the number of set bits of every `int` |
| BitwiseTricks.PopCountExamples | loopholes/03_bitwise_tricks.c:56-58 | the bit counts of 1, 2, 4, 8, 16, 3, 5, 7 are 1, 1, 1, 1, 1, 2, 2, 3, and -1 has 32 set bits |
| BitwiseTricks.XorSwap | loopholes/03_bitwise_tricks.c:19-25 | distinct cells exchange values; the same cell passed twice is left unchanged |
| BitwiseTricks.XorSwapSteps | loopholes/03_bitwise_tricks.c:21-23 | the three xor steps leave y in the first variable and x in the second |
| BitwiseTricks.IsEven | loopholes/03_bitwise_tricks.c:28-30 | returns 1 or 0, and 1 exactly when n is even, negative n included |
| BitwiseTricks.SignMask | loopholes/03_bitwise_tricks.c:34 | the mask is -1 exactly for negative x and 0 otherwise |
| BitwiseTricks.AbsNoBranch | loopholes/03_bitwise_tricks.c:33-36 | the absolute value of x, for every x except INT_MIN |
| BitwiseTricks.AbsMask | loopholes/03_bitwise_tricks.c:34-35 | adding the sign mask and xor-ing with it gives -x for negative x (the complement of x - 1) and x otherwise |
| BitwiseTricks.AbsExamples | loopholes/03_bitwise_tricks.c:72-75 | for each of main's arguments -5, -10, 15 and -20, abs is 5, 10, 15 and 20 respectively |
| BitwiseTricks.LessMask | loopholes/03_bitwise_tricks.c:40 | the negated comparison is -1 exactly when x < y and 0 otherwise |
| BitwiseTricks.MinNoBranch | loopholes/03_bitwise_tricks.c:39-41 | the result is one of x and y and no larger than either |
| BitwiseTricks.MaxNoBranch | loopholes/03_bitwise_tricks.c:43-45 | the result is one of x and y and no smaller than either |
| BitwiseTricks.MinMaxPair | loopholes/03_bitwise_tricks.c:39-45 | min and max together are exactly the two arguments, as a multiset |
| BitwiseTricks.MinMaxExamples | loopholes/03_bitwise_tricks.c:78-81 | min(5, 10) = 5, max(5, 10) = 10, min(15, 3) = 3, max(15, 3) = 15 |
| BitwiseTricks.XorSwapExample | loopholes/03_bitwise_tricks.c:61-64 | a = 5, b = 10 become a = 10, b = 5 |
| PointerSwap.SwapIncorrect | loopholes/01_pointer_swap_trick.c:3-13 | the local copies are exchanged; the caller's variables, passed by value, are untouched |
| PointerSwap.SwapCorrect | loopholes/01_pointer_swap_trick.c:16-25 | distinct cells exchange values; one cell passed twice becomes 0 |
| PointerSwap.SwapTemp | loopholes/01_pointer_swap_trick.c:28-32 | distinct cells exchange values; one cell passed twice keeps its value |
| PointerSwap.SwapSequence | loopholes/01_pointer_swap_trick.c:34-53 | x = 5, y = 10: unchanged after swap_incorrect, (10, 5) after swap_correct, (5, 10) after swap_temp |
| PointerSwap.SelfSwap | loopholes/01_pointer_swap_trick.c:16-32 | through an aliased pointer pair the XOR swap zeroes the variable and the temporary swap keeps it |
| FunctionPointer.Abs | temp_function_pointer.c:15-17 | a nonnegative number equal to x or -x |
| FunctionPointer.TruncDiv | temp_function_pointer.c:16 | C's quotient truncated toward zero: no larger in size than the dividend, with a remainder smaller than the divisor and of the dividend's sign |
| FunctionPointer.Add | temp_function_pointer.c:3-5 | the mathematical sum, when it fits an `int` |
| FunctionPointer.Subtract | temp_function_pointer.c:7-9 | the mathematical difference, when it fits an `int` |
| FunctionPointer.Multiply | temp_function_pointer.c:11-13 | the mathematical product, when it fits an `int` |
| FunctionPointer.Divide | temp_function_pointer.c:15-17 | 0 for a zero divisor, otherwise the truncated quotient, characterised by its remainder; only INT_MIN / -1 is excluded |
| FunctionPointer.QuotientFits | temp_function_pointer.c:16 | every truncated quotient except that of INT_MIN / -1 fits an `int` |
| FunctionPointer.AddSubtractInverse | temp_function_pointer.c:3-9 | subtracting b undoes adding b |
| FunctionPointer.MultiplyDivideInverse | temp_function_pointer.c:11-17 | dividing by a nonzero b undoes multiplying by b |
| FunctionPointer.DivideTruncates | temp_function_pointer.c:16 | -7 / 2 is -3 (Dafny's own division gives -4), 7 / -2 is -3, -7 / -2 is 3, and division by 0 gives 0 |
| FunctionPointer.OperationDemo | temp_function_pointer.c:19-38 | through the pointer, x = 10 and y = 5 give 15, 5, 50 and 2 |
| ArrayFunction.Doubled | temp_array_function.c:11-15 | the reference result: each of the first n elements doubled, the others as they were, the length kept |
| ArrayFunction.DoubleArray | temp_array_function.c:11-15 | the array becomes Doubled of its old contents at `size` |
| ArrayFunction.DoubledNone | temp_array_function.c:12 | a size of 0 changes nothing |
| ArrayFunction.DoubledHalves | temp_array_function.c:11-15 | halving the doubled prefix restores it, and the rest is untouched |
| ArrayFunction.DoubleArrayExample | temp_array_function.c:17-30 | {1, 2, 3, 4, 5} becomes {2, 4, 6, 8, 10} |
| ArrayOperations.Sum | practice/code-practice/beginner/02_array_operations.c:34 | the mathematical sum of the elements, the value calculateSum is proved against; it lies between size times INT_MIN and size times INT_MAX |
| ArrayOperations.CountEven | practice/code-practice/beginner/02_array_operations.c:36 | the even count is at most the length |
| ArrayOperations.FindMax | practice/code-practice/beginner/02_array_operations.c:32 | None exactly for an empty array; otherwise an element of the array that no element exceeds |
| ArrayOperations.FindMin | practice/code-practice/beginner/02_array_operations.c:33 | None exactly for an empty array; otherwise an element of the array that no element is below |
| ArrayOperations.CalculateSum | practice/code-practice/beginner/02_array_operations.c:34 | the mathematical sum of the first `size` elements, when every running total fits an `int` |
| ArrayOperations.CountEvenOdd | practice/code-practice/beginner/02_array_operations.c:36 | the even count, and even + odd = size |
| ArrayOperations.ReverseArray | practice/code-practice/beginner/02_array_operations.c:37 | the first `size` elements become their reversal; the rest are unchanged |
| ArrayOperations.ReverseShort | practice/code-practice/beginner/02_array_operations.c:16 | reversing 0 or 1 elements changes nothing |
| ArrayOperations.SingleElement | practice/code-practice/beginner/02_array_operations.c:16 | the one element of a single-element array is both its maximum and its minimum |
| ArrayOperations.MaxMinExample | practice/code-practice/beginner/02_array_operations.c:19-21 | on [5, 2, 8, 1, 9, 3, 7, 4, 6] the maximum is 9 and the minimum is 1 |
| ArrayOperations.SumExample | practice/code-practice/beginner/02_array_operations.c:19-22 | the sum of the example array is 45 |
| ArrayOperations.EvenOddExample | practice/code-practice/beginner/02_array_operations.c:24-25 | the example array has 4 even and 5 odd elements |
| ArrayOperations.ReverseExample | practice/code-practice/beginner/02_array_operations.c:26 | the reversed example array is [6, 4, 7, 3, 9, 1, 8, 2, 5] |
| ArrayOperations.NonnegativePrefixSums | practice/code-practice/beginner/02_array_operations.c:34 | with no negative element every running total lies between 0 and the total |
| Seqs.Reverse | practice/code-practice/intermediate/01_string_manipulation.c:42 | the reversal of a sequence, the reference for the array, string and list reversals; it keeps the length |
| Seqs.ReverseAt | practice/code-practice/intermediate/01_string_manipulation.c:42 | position k of the reversal holds the k-th element from the end |
| Seqs.ReverseIff | practice/code-practice/intermediate/01_string_manipulation.c:42 | r is the reversal of s exactly when it has the same length and holds s back to front |
| Seqs.ReverseReverse | practice/code-practice/advanced/01_linked_list_implementation.c:60 | reversing twice gives back the original |
| CStrings.StrLen | practice/code-practice/intermediate/01_string_manipulation.c:38 | the position of the first NUL: a NUL with no NUL before it |
| CStrings.Str | practice/code-practice/intermediate/01_string_manipulation.c:60 | the characters before the first NUL, which hold no NUL and number StrLen |
| CStrings.StrLenAt | practice/code-practice/intermediate/01_string_manipulation.c:60 | a NUL with no NUL before it is at StrLen |
| CStrings.Compare | interview-prep/practice-exercises/intermediate/01_string_functions.c:36 | the order myStrcmp returns: -1, 0 or 1, lexicographic by character, with a proper prefix sorting first |
| CStrings.CompareFirstDifference | practice/code-practice/intermediate/01_string_manipulation.c:41 | the result is decided at the first position where the strings differ or one of them ends; a proper prefix sorts first |
| CStrings.CompareZero | practice/code-practice/intermediate/01_string_manipulation.c:41 | the comparison is 0 exactly for equal strings |
| CStrings.CompareAntisymmetric | practice/code-practice/intermediate/01_string_manipulation.c:41 | swapping the operands negates the result, which is -1, 0 or 1 |
| CStrings.ToUpper | practice/code-practice/intermediate/01_string_manipulation.c:44 | a lower-case letter goes to the upper-case letter 32 below it; any other character stays |
| CStrings.ToLower | practice/code-practice/intermediate/01_string_manipulation.c:45 | an upper-case letter goes to the lower-case letter 32 above it; any other character stays |
| CStrings.CaseRoundTrip | practice/code-practice/intermediate/01_string_manipulation.c:44-45 | conversion keeps letters letters, is idempotent, each conversion undoes the other on letters, and NUL and space stay |
| CStrings.MapUpper | practice/code-practice/intermediate/01_string_manipulation.c:44 | every character converted to upper case, the length kept |
| CStrings.MapLower | practice/code-practice/intermediate/01_string_manipulation.c:45 | every character converted to lower case, the length kept |
| CStrings.IsVowel | practice/code-practice/intermediate/01_string_manipulation.c:46 | the vowels are a, e, i, o and u in either case, and each is a letter; 'y' is a consonant |
| CStrings.CountVowels | practice/code-practice/intermediate/01_string_manipulation.c:46 | the number of vowels in the string, at most its length |
| CStrings.CountConsonants | practice/code-practice/intermediate/01_string_manipulation.c:46 | the number of letters that are not vowels, at most the length |
| CStrings.CountLetters | practice/code-practice/intermediate/01_string_manipulation.c:46 | the number of ASCII letters, at most the length |
| CStrings.NoSpaces | practice/code-practice/intermediate/01_string_manipulation.c:47 | the characters other than the space, in their order; never longer than the string |
| CStrings.VowelsAndConsonants | practice/code-practice/intermediate/01_string_manipulation.c:46 | vowels plus consonants are exactly the letters |
| CStrings.NoSpacesMembers | practice/code-practice/intermediate/01_string_manipulation.c:47 | no space survives, and a character survives exactly when it occurs in the string and is not a space |
| CStrings.NoSpacesIdempotent | practice/code-practice/intermediate/01_string_manipulation.c:47 | a string without spaces is kept, so removing spaces twice is removing them once |
| CStrings.NoSpacesAppend | practice/code-practice/intermediate/01_string_manipulation.c:47 | space removal distributes over concatenation, so the order of the other characters is kept |
| CStrings.ReverseMembers | practice/code-practice/intermediate/01_string_manipulation.c:42 | reversal keeps the set of characters |
| CStrings.MyStrlen | practice/code-practice/intermediate/01_string_manipulation.c:38 | the index of the first NUL |
| CStrings.MyStrcpy | practice/code-practice/intermediate/01_string_manipulation.c:39 | dest holds the C string of src, with the characters and NUL copied and everything after them untouched |
| CStrings.MyStrcat | practice/code-practice/intermediate/01_string_manipulation.c:40 | dest holds its old string followed by src's, its length is the sum, and the positions after the new NUL are untouched |
| CStrings.Concatenated | practice/code-practice/intermediate/01_string_manipulation.c:40 | a buffer with one string's characters, then another's, then a NUL holds the concatenation |
| CStrings.MyStrcmp | practice/code-practice/intermediate/01_string_manipulation.c:41 | the lexicographic comparison of the two C strings |
| CStrings.ReverseString | practice/code-practice/intermediate/01_string_manipulation.c:42 | the string becomes its reversal, with the length and everything from the NUL on kept |
| CStrings.IsPalindrome | practice/code-practice/intermediate/01_string_manipulation.c:43 | returns 1 or 0, and 1 exactly when the string equals its reversal |
| CStrings.ToUppercase | practice/code-practice/intermediate/01_string_manipulation.c:44 | the string becomes MapUpper of itself; the NUL and what follows stay |
| CStrings.ToLowercase | practice/code-practice/intermediate/01_string_manipulation.c:45 | the string becomes MapLower of itself; the NUL and what follows stay |
| CStrings.CountVowelsConsonants | practice/code-practice/intermediate/01_string_manipulation.c:46 | the vowel and consonant counts of the string, which add up to its letter count |
| CStrings.RemoveSpaces | practice/code-practice/intermediate/01_string_manipulation.c:47 | the string becomes NoSpaces of itself; the positions after the new NUL are untouched |
| CStrings.Terminated | practice/code-practice/intermediate/01_string_manipulation.c:60 | a buffer starting with t and then a NUL holds the C string t |
| CStrings.Buffer | practice/code-practice/intermediate/01_string_manipulation.c:25 | a fresh buffer of the given capacity holding the C string |
| StringManipulation.LengthExample | practice/code-practice/intermediate/01_string_manipulation.c:25-26 | the length of "Hello World" is 11 |
| StringManipulation.ReverseExample | practice/code-practice/intermediate/01_string_manipulation.c:27 | reversed in place it reads "dlroW olleH" |
| StringManipulation.CaseExample | practice/code-practice/intermediate/01_string_manipulation.c:28-29 | in upper case "HELLO WORLD", then in lower case "hello world" |
| StringManipulation.CountExample | practice/code-practice/intermediate/01_string_manipulation.c:30 | 3 vowels and 7 consonants |
| StringManipulation.RemoveSpacesExample | practice/code-practice/intermediate/01_string_manipulation.c:31 | without spaces it reads "HelloWorld" |
| StringManipulation.PalindromeExample | practice/code-practice/intermediate/01_string_manipulation.c:32 | "Hello World" is no palindrome |
| StringManipulation.Reversed | practice/code-practice/intermediate/01_string_manipulation.c:27 | the reversal of "Hello World" is "dlroW olleH" |
| StringManipulation.Upper | practice/code-practice/intermediate/01_string_manipulation.c:28 | upper case of "Hello World" is "HELLO WORLD" |
| StringManipulation.Lower | practice/code-practice/intermediate/01_string_manipulation.c:29 | lower case of "HELLO WORLD" is "hello world" |
| StringManipulation.Vowels | practice/code-practice/intermediate/01_string_manipulation.c:30 | "Hello World" has 3 vowels |
| StringManipulation.Consonants | practice/code-practice/intermediate/01_string_manipulation.c:30 | "Hello World" has 7 consonants |
| StringManipulation.WithoutSpaces | practice/code-practice/intermediate/01_string_manipulation.c:31 | "Hello World" without spaces is "HelloWorld" |
| StringFunctions.LengthExample | interview-prep/practice-exercises/intermediate/01_string_functions.c:21-22 | the length of "Hello" is 5 |
| StringFunctions.CopyExample | interview-prep/practice-exercises/intermediate/01_string_functions.c:23 | the copy reads "Hello" |
| StringFunctions.ConcatExample | interview-prep/practice-exercises/intermediate/01_string_functions.c:24 | "Hello" then " World" gives "Hello World", of length 11 |
| StringFunctions.CompareExample | interview-prep/practice-exercises/intermediate/01_string_functions.c:25 | comparing "Hello" with "World" gives -1; the documented output names no second operand, so "World" is a chosen one |
| StringFunctions.ReverseExample | interview-prep/practice-exercises/intermediate/01_string_functions.c:26 | "Hello" reversed in place reads "olleH" |
| StringFunctions.PalindromeExample | interview-prep/practice-exercises/intermediate/01_string_functions.c:27 | "Hello" is no palindrome |
| StringFunctions.Reversed | interview-prep/practice-exercises/intermediate/01_string_functions.c:26 | the reversal of "Hello" is "olleH" |
| SinglyLinked.InsertAt | practice/code-practice/advanced/01_linked_list_implementation.c:53 | the element is at position p, the elements before it are kept and the later ones move up by one |
| SinglyLinked.RemoveAt | practice/code-practice/advanced/01_linked_list_implementation.c:56 | the element at p is gone, the elements before it are kept and the later ones move down by one |
| SinglyLinked.IndexOf | practice/code-practice/advanced/01_linked_list_implementation.c:57 | a found position holds the value |
| SinglyLinked.IndexOfIff | practice/code-practice/advanced/01_linked_list_implementation.c:57 | IndexOf is the first occurrence, and None exactly when the value is absent (both directions) |
| SinglyLinked.RemoveInsert | practice/code-practice/advanced/01_linked_list_implementation.c:53-56 | deleting at the position of an insert gives back the list |
| SinglyLinked.InsertRemove | practice/code-practice/advanced/01_linked_list_implementation.c:53-56 | inserting the deleted value where it was gives back the list |
| SinglyLinked.Ends | practice/code-practice/advanced/01_linked_list_implementation.c:51-56 | insert at 0 or at the length is insert at front or end; delete at 0 or at the last position is delete at front or end |
| SinglyLinked.DistinctInsert | practice/code-practice/advanced/01_linked_list_implementation.c:53 | inserting a new node keeps every node in the list once |
| SinglyLinked.DistinctRemove | practice/code-practice/advanced/01_linked_list_implementation.c:56 | removing a node keeps the others distinct, and the removed node is no longer in the list |
| SinglyLinked.DistinctReverse | practice/code-practice/advanced/01_linked_list_implementation.c:60 | reversal keeps every node in the list once |
| SinglyLinked.Successor | practice/code-practice/advanced/01_linked_list_implementation.c:39 | the node after position i, null exactly after the last node |
| SinglyLinked.Node.constructor | practice/code-practice/advanced/01_linked_list_implementation.c:49 | `createNode`: a node holding the value with no successor |
| SinglyLinked.LinkedList.Valid | practice/code-practice/advanced/01_linked_list_implementation.c:43-46 | the list invariant: head starts the chain of Nodes, each next is the following node and the last is null, no node repeats, the data are Contents, and size is the node count (the hint at line 78); a valid list owns itself |
| SinglyLinked.LinkedList.constructor | practice/code-practice/advanced/01_linked_list_implementation.c:50 | `createList`: a valid list with no head, size 0 and no elements |
| SinglyLinked.LinkedList.IsEmpty | practice/code-practice/advanced/01_linked_list_implementation.c:61 | returns 1 or 0, and 1 exactly when the list has no elements and exactly when size is 0 |
| SinglyLinked.LinkedList.GetLength | practice/code-practice/advanced/01_linked_list_implementation.c:59 | the count of nodes reached from head equals the number of elements and the cached size |
| SinglyLinked.LinkedList.Elements | practice/code-practice/advanced/01_linked_list_implementation.c:58 | the traversal of displayList visits exactly the elements, in order |
| SinglyLinked.LinkedList.SearchElement | practice/code-practice/advanced/01_linked_list_implementation.c:57 | the result is IndexOf of the elements: the first position holding the value, or None |
| SinglyLinked.LinkedList.InsertAtBeginning | practice/code-practice/advanced/01_linked_list_implementation.c:51 | the value goes in front of the old elements, size grows by 1, and the list stays valid |
| SinglyLinked.LinkedList.LastNode | practice/code-practice/advanced/01_linked_list_implementation.c:52 | walking from head stops at the last node, whose next is null |
| SinglyLinked.LinkedList.NodeBefore | practice/code-practice/advanced/01_linked_list_implementation.c:53-56 | walking position - 1 steps from head reaches the node at position - 1 |
| SinglyLinked.LinkedList.InsertAtEnd | practice/code-practice/advanced/01_linked_list_implementation.c:52 | the value goes after the old elements, size grows by 1, and the list stays valid |
| SinglyLinked.LinkedList.InsertAtPosition | practice/code-practice/advanced/01_linked_list_implementation.c:53 | for an accepted position it needs size below INT_MAX; Err(InvalidPosition) exactly for positions outside 0 .. size, which change nothing; otherwise the elements become InsertAt at the position and size grows by 1 |
| SinglyLinked.LinkedList.LinkAfter | practice/code-practice/advanced/01_linked_list_implementation.c:53 | splicing a new node after position p - 1 inserts the value at p |
| SinglyLinked.LinkedList.DeleteFromBeginning | practice/code-practice/advanced/01_linked_list_implementation.c:54 | Err(EmptyList) and no change on an empty list; otherwise returns the first value, drops it and shrinks size by 1 |
| SinglyLinked.LinkedList.DeleteFromEnd | practice/code-practice/advanced/01_linked_list_implementation.c:55 | Err(EmptyList) and no change on an empty list; otherwise returns the last value, drops it and shrinks size by 1 |
| SinglyLinked.LinkedList.DeleteFromPosition | practice/code-practice/advanced/01_linked_list_implementation.c:56 | Err(InvalidPosition) exactly for positions outside 0 .. size - 1, which change nothing; otherwise returns the value at the position, the elements become RemoveAt, and size shrinks by 1 |
| SinglyLinked.LinkedList.ReverseList | practice/code-practice/advanced/01_linked_list_implementation.c:60 | the elements become their reversal, with the same nodes and size, and the list stays valid |
| SinglyLinked.LinkedList.FreeList | practice/code-practice/advanced/01_linked_list_implementation.c:62 | the list is left valid and empty, with no head and size 0 |
| SinglyLinked.ReverseTwice | practice/code-practice/advanced/01_linked_list_implementation.c:60 | reversing twice restores the elements |
| SinglyLinked.ExampleUsage | practice/code-practice/advanced/01_linked_list_implementation.c:26-30 | 10, 20, 30, 40 appended give length 4, 30 is found at position 2, and the reversal is 40, 30, 20, 10 |
| SinglyLinked.ExampleFacts | practice/code-practice/advanced/01_linked_list_implementation.c:29-30 | in 10, 20, 30, 40 the value 30 is first at position 2, and the reversal is 40, 30, 20, 10 |
| SinglyLinked.DeleteExample | practice/code-practice/advanced/01_linked_list_implementation.c:54-56 | from 40, 30, 20, 10: deleting at position 1 gives 30, at the end 10, at the front 40, and 20 remains |
| SinglyLinked.ErrorExample | practice/code-practice/advanced/01_linked_list_implementation.c:22 | on an empty list both end deletes report EmptyList, position 0 and an insert at 1 report InvalidPosition, and the list stays empty |

## Left out

- Printing: every `printf` and `displayList`'s output is left out. `SinglyLinked.LinkedList.Elements` returns the values displayList would print.
- `printArray` (both programs) only prints, and is left out.
- `calculateAverage` returns a `float`. Floating point is not modelled.
- The string, list and array exercises declare prototypes only, so the loop bodies of their routines are the model's own designs. The array routines (`FindMax`, `FindMin`, `CalculateSum`, `CountEvenOdd`, `ReverseArray`) use one left-to-right pass, and `ReverseArray` swaps from both ends. The other loops follow the hints: walk to the NUL, swap from both ends, shift characters left over spaces, use three rolling pointers for the list reversal.
- Null pointers are not modelled. Every string argument is a non-null buffer holding a NUL, and every list argument is a valid list. The exercises ask the routines to handle null pointers but do not say what they return; the model's non-null array and object types exclude null.
- `malloc` failure is not modelled: allocation always succeeds. `free` is not modelled. `FreeList` and the deletes drop the nodes from the list's footprint, and the removed values are returned.
- `SinglyLinked.LinkedList.InsertAtBeginning`, `SinglyLinked.LinkedList.InsertAtEnd` and `SinglyLinked.LinkedList.InsertAtPosition` require size below INT_MAX, because incrementing the `int` size past it would overflow. `InsertAtPosition` requires it only for the positions it accepts.
- The extension challenges (circular and doubly linked lists, merge sort, cycle detection, substring, tokenizing, strncpy, sorting, searching, rotation and others) are suggestions without code.
- `CStrings.MyStrcmp` compares characters by code point, the comparison of `unsigned char` values. A signed `char` compares characters above 127 differently.
- `CStrings.MyStrcpy` and `CStrings.MyStrcat` require distinct buffers with room for the result. Copying between overlapping objects and writing past the end are undefined in C.
- `BitwiseTricks.SignMask`: the right shift of a negative `int` is implementation-defined in C. The model takes the arithmetic shift the program's comment describes.
- `BitwiseTricks.AbsNoBranch` excludes INT_MIN, whose addition to the mask overflows.
- `ArrayOperations.CalculateSum` requires every running total to fit an `int`, because the C sum overflows otherwise.
- `FunctionPointer.Add`, `FunctionPointer.Subtract` and `FunctionPointer.Multiply` require the result to fit an `int`. `FunctionPointer.Divide` excludes INT_MIN / -1. All of these overflow in C.
- The string functions return lengths and counts as `nat` rather than `int`. These values are bounded by the buffer size and never overflow in the model.
- Macros, operator precedence, the scope demonstrations and the pointer-address and `sizeof` lessons are outside the modelled programs.

## Findings

| source | as written | input that shows it | evidently intended | confidence | as-written member | corrected member |
|---|---|---|---|---|---|---|
| loopholes/03_bitwise_tricks.c:9-16 | Kernighan's loop clears the lowest set bit with `n - 1` on a signed `int` | n = -1: the loop reaches n = INT_MIN and then computes INT_MIN - 1, a signed overflow | the count of set bits in the 32-bit pattern, 32 for -1, as on an `unsigned` | medium, not executed | BitwiseTricks.CountSetBits | BitwiseTricks.CountSetBitsUnsigned |
