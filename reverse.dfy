/**
  The fuzzing target: `reverse_string` swaps the characters of a NUL-terminated
  buffer end for end in place, and the driver cuts its input line at the first
  newline before reversing it. A C string is the contents of a `char` array up
  to its first NUL.
 */
module Reverse {
  import CText

  const Nul: char := '\0'

  /** `strlen`: the index of the first NUL. */
  function Strlen(s: seq<char>): (n: nat)
    requires Nul in s
    ensures n < |s| && s[n] == Nul
    ensures forall k :: 0 <= k < n ==> s[k] != Nul
  {
    if s[0] == Nul then 0 else 1 + Strlen(s[1..])
  }

  /** The C string a buffer holds. */
  function CString(s: seq<char>): (r: seq<char>)
    requires Nul in s
    ensures Nul !in r && r == s[..Strlen(s)]
  {
    s[..Strlen(s)]
  }

  /** The string read backwards, defined by peeling off its last character. */
  function Reversed(s: seq<char>): (r: seq<char>)
    ensures |r| == |s|
  {
    if s == [] then [] else [s[|s| - 1]] + Reversed(s[..|s| - 1])
  }

  /** `strcspn(s, "\n")`: the index of the first newline or NUL. */
  function Strcspn(s: seq<char>): (n: nat)
    requires Nul in s
    ensures n <= Strlen(s) && n < |s| && (s[n] == Nul || s[n] == '\n')
    ensures forall k :: 0 <= k < n ==> s[k] != Nul && s[k] != '\n'
  {
    if s[0] == Nul || s[0] == '\n' then 0 else 1 + Strcspn(s[1..])
  }

  // ---------------------------------------------------------------------------
  // Lemmas about the specification functions

  /** Position i of the reversal holds the character at the mirrored position. */
  lemma {:induction false} ReversedAt(s: seq<char>, i: nat)
    requires i < |s|
    ensures Reversed(s)[i] == s[|s| - 1 - i]
  {
    if i > 0 {
      ReversedAt(s[..|s| - 1], i - 1);
    }
  }

  /** The characters that are mirrored into every position make up the reversal. */
  lemma ReversedByIndex(s: seq<char>, r: seq<char>)
    requires |r| == |s| && forall i :: 0 <= i < |s| ==> r[i] == s[|s| - 1 - i]
    ensures r == Reversed(s)
  {
    forall i | 0 <= i < |s|
      ensures r[i] == Reversed(s)[i]
    {
      ReversedAt(s, i);
    }
  }

  /** Reversing twice gives back the string. */
  lemma ReversedTwice(s: seq<char>)
    ensures Reversed(Reversed(s)) == s
  {
    forall i | 0 <= i < |s|
      ensures Reversed(Reversed(s))[i] == s[i]
    {
      ReversedAt(Reversed(s), i);
      ReversedAt(s, |s| - 1 - i);
    }
  }

  /** A reversal is a rearrangement: the same characters, as often. */
  lemma {:induction false} ReversedPermutes(s: seq<char>)
    ensures multiset(Reversed(s)) == multiset(s)
  {
    if s != [] {
      var init := s[..|s| - 1];
      ReversedPermutes(init);
      assert s == init + [s[|s| - 1]];
    }
  }

  /** A buffer whose first NUL is at n holds a string of length n. */
  lemma StrlenAt(s: seq<char>, n: nat)
    requires n < |s| && s[n] == Nul && Nul !in s[..n]
    ensures Strlen(s) == n
  {
  }

  /** Cutting a buffer at its first newline or NUL leaves the C string cut at its
      first newline: the same trim the ATM applies to a command. */
  lemma TrimmedString(s: seq<char>)
    requires Nul in s
    ensures Nul in s[Strcspn(s) := Nul]
    ensures CString(s[Strcspn(s) := Nul]) == CText.BeforeNewline(CString(s))
  {
    var n := Strcspn(s);
    var t := s[n := Nul];
    assert t[n] == Nul;
    assert t[..n] == s[..n];
    StrlenAt(t, n);
    BeforeNewlineAt(CString(s), n);
  }

  /** The part of a string before its first newline, found by position. */
  lemma {:induction false} BeforeNewlineAt(s: seq<char>, n: nat)
    requires n <= |s| && (n == |s| || s[n] == '\n')
    requires forall k :: 0 <= k < n ==> s[k] != '\n'
    ensures CText.BeforeNewline(s) == s[..n]
  {
    if s != [] && s[0] != '\n' {
      BeforeNewlineAt(s[1..], n - 1);
      assert s[..n] == [s[0]] + s[1..][..n - 1];
    }
  }

  // ---------------------------------------------------------------------------
  // The code

  /** `reverse_string(str)`: swap `str[i]` and `str[len-i-1]` for every i below
      half the length. The string is reversed, and the NUL and everything after it
      are left as they were. */
  method ReverseString(str: array<char>)
    requires Nul in str[..]
    modifies str
    ensures Nul in str[..] && Strlen(str[..]) == old(Strlen(str[..]))
    ensures CString(str[..]) == Reversed(old(CString(str[..])))
    ensures str[Strlen(str[..])..] == old(str[Strlen(str[..])..])
    ensures multiset(str[..]) == old(multiset(str[..]))
  {
    ghost var before := str[..];
    var len := Strlen(str[..]);
    for i := 0 to len / 2
      invariant forall k :: 0 <= k < i ==> str[k] == before[len - 1 - k] && str[len - 1 - k] == before[k]
      invariant forall k :: i <= k < len - i ==> str[k] == before[k]
      invariant forall k :: len <= k < str.Length ==> str[k] == before[k]
    {
      var temp := str[i];
      str[i] := str[len - i - 1];
      str[len - i - 1] := temp;
    }
    SwapsReverse(before, str[..], len);
    ReversedPermutes(before[..len]);
    PrefixPermutes(before, str[..], len);
  }

  /** What the swap loop leaves once it has run to half the length: the string
      reversed in place, with the same length, and the rest of the buffer untouched. */
  lemma SwapsReverse(before: seq<char>, after: seq<char>, len: nat)
    requires Nul in before && len == Strlen(before) && |after| == |before|
    requires forall k :: 0 <= k < len / 2 ==> after[k] == before[len - 1 - k] && after[len - 1 - k] == before[k]
    requires forall k :: len / 2 <= k < len - len / 2 ==> after[k] == before[k]
    requires forall k :: len <= k < |after| ==> after[k] == before[k]
    ensures Nul in after && Strlen(after) == len
    ensures CString(after) == Reversed(CString(before))
    ensures after[len..] == before[len..]
  {
    var s := before[..len];
    forall i | 0 <= i < len
      ensures after[..len][i] == s[len - 1 - i]
    {
      if len / 2 <= i < len - len / 2 {
        assert i == len - 1 - i;
      } else if i >= len - len / 2 {
        assert after[len - 1 - (len - 1 - i)] == before[len - 1 - i];
      }
    }
    ReversedByIndex(s, after[..len]);
    ReversedPermutes(s);
    assert Nul !in multiset(after[..len]);
    assert after[len] == Nul;
    StrlenAt(after, len);
  }

  /** Rearranging a prefix and keeping the rest rearranges the whole. */
  lemma PrefixPermutes(before: seq<char>, after: seq<char>, len: nat)
    requires len <= |before| == |after|
    requires multiset(after[..len]) == multiset(before[..len]) && after[len..] == before[len..]
    ensures multiset(after) == multiset(before)
  {
    assert after == after[..len] + after[len..];
    assert before == before[..len] + before[len..];
  }

  /** The input line, cut where `strcspn(input, "\n")` points: the newline, if any,
      becomes the terminator. */
  method TrimNewline(input: array<char>)
    requires Nul in input[..]
    modifies input
    ensures input[..] == old(input[..][Strcspn(input[..]) := Nul])
  {
    input[Strcspn(input[..])] := Nul;
  }

  /** The driver after `fgets` has filled the buffer: trim the newline, reverse the
      line in place, and print it. */
  method ReverseLine(input: array<char>) returns (printed: seq<char>)
    requires Nul in input[..]
    modifies input
    ensures Nul in input[..]
    ensures CString(input[..]) == Reversed(CText.BeforeNewline(old(CString(input[..]))))
    ensures printed == "Reversed string: " + CString(input[..]) + "\n"
  {
    TrimmedString(input[..]);
    TrimNewline(input);
    ReverseString(input);
    printed := "Reversed string: " + CString(input[..]) + "\n";
  }
}
