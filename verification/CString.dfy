/** Texts as the C library sees them: behind the last character there are zeros. */
module CString {
  function At(s: string, i: nat): char { if i < |s| then s[i] else '\0' }

  // The i-th character as the signed number that a comparison sees: from 0x80 on it is negative.
  function Code(s: string, i: nat): int {
    var c := At(s, i) as int;
    if c < 0x80 then c else c - 0x100
  }
}
