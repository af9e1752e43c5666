/** The C-locale character classes of <ctype.h>, on 7-bit characters. */
module Ctype {

  /** A character of a C string: 7 bits wide and not the terminating NUL. */
  type Char7 = c: char | 0 < c as int < 128 witness 'a'

  /** A C string without its terminating NUL. */
  type CString = seq<Char7>

  const EOS: char := '\0'

  /** What the pointer expression `p[i]` reads: the NUL sits at index |p|, and nothing
      beyond it may be read. */
  function At(p: CString, i: nat): char
    requires i <= |p|
  {
    if i < |p| then p[i] else EOS
  }

  predicate IsUpper(c: char) { 'A' <= c <= 'Z' }

  predicate IsLower(c: char) { 'a' <= c <= 'z' }

  predicate IsAlpha(c: char) { IsUpper(c) || IsLower(c) }

  predicate IsDigit(c: char) { '0' <= c <= '9' }

  predicate IsAlnum(c: char) { IsAlpha(c) || IsDigit(c) }

  predicate IsBlank(c: char) { c == ' ' || c == '\t' }

  predicate IsCntrl(c: char) { c as int < 32 || c as int == 127 }

  predicate IsPrint(c: char) { 32 <= c as int < 127 }

  predicate IsGraph(c: char) { 32 < c as int < 127 }

  predicate IsPunct(c: char) { IsGraph(c) && !IsAlnum(c) }

  predicate IsSpace(c: char) { c == ' ' || 9 <= c as int <= 13 }

  predicate IsXdigit(c: char) { IsDigit(c) || 'a' <= c <= 'f' || 'A' <= c <= 'F' }

  function ToLower(c: char): char {
    if IsUpper(c) then (c as int + 32) as char else c
  }
}
