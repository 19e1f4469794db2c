/** Substring tests, the model of Python's `sub in s` on strings. */
module Text {

  /** `sub` occurs in `s` starting at offset `i`. */
  predicate OccursAt(s: string, sub: string, i: int)
  {
    0 <= i <= |s| - |sub| && s[i..i + |sub|] == sub
  }

  /** Python's `sub in s`: `sub` occurs in `s` at some offset. */
  predicate Contains(s: string, sub: string)
  {
    exists i | 0 <= i <= |s| - |sub| :: OccursAt(s, sub, i)
  }

  /** Every string holding ".jpg" also holds "jpg". */
  lemma DotJpgContainsJpg(s: string)
    ensures Contains(s, ".jpg") ==> Contains(s, "jpg")
  {
    if Contains(s, ".jpg") {
      var i :| 0 <= i <= |s| - 4 && OccursAt(s, ".jpg", i);
      assert s[i + 1..i + 4] == s[i..i + 4][1..] == ".jpg"[1..] == "jpg";
      assert OccursAt(s, "jpg", i + 1);
    }
  }
}
