/** The ASCII letters, for the places that fold their case. */
module Letters {
  const SMALL := "abcdefghijklmnopqrstuvwxyz"
  const CAPITAL := "ABCDEFGHIJKLMNOPQRSTUVWXYZ"

  lemma LetterAt(k: nat)
    requires k < 26
    ensures SMALL[k] as int == 97 + k && CAPITAL[k] as int == 65 + k
  {
  }

  /** Small letters are the characters from 97 to 122, each 32 above its capital. */
  lemma LettersAre()
    ensures forall k: nat :: k < 26 ==> SMALL[k] as int == 97 + k && CAPITAL[k] as int == 65 + k
  {
    forall k: nat | k < 26 ensures SMALL[k] as int == 97 + k && CAPITAL[k] as int == 65 + k {
      LetterAt(k);
    }
  }

  /** The two are a small letter and its capital. */
  predicate Cases(x: int, y: int) {
    exists k: nat :: k < 26 && x == SMALL[k] as int && y == CAPITAL[k] as int
  }

  lemma CasesAre(x: int, y: int)
    ensures Cases(x, y) <==> 97 <= x < 123 && y == x - 32
  {
    LettersAre();
    if 97 <= x < 123 && y == x - 32 {
      assert x == SMALL[x - 97] as int && y == CAPITAL[x - 97] as int;
    }
    hide SMALL, CAPITAL;
  }
}
