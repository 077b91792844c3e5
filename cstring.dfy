/** Constants and C-string conventions shared by the spellchecker model. */
module CString {
  /** Size of every character buffer: 39 visible characters plus the terminator. */
  const MAX_WORD_LEN: nat := 40

  /** The character at position k of a NUL-terminated buffer holding s.
      The terminator reads as '\0'; so, in this model, does every byte after it. */
  function At(s: seq<char>, k: nat): char
  {
    if k < |s| then s[k] else '\0'
  }

  /** s holds no terminator, so strlen of a buffer holding s is |s|. */
  predicate NoNul(s: seq<char>)
  {
    forall k :: 0 <= k < |s| ==> s[k] != '\0'
  }
}
