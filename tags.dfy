/** Which tag names the encoder accepts as output keys (isValidTag). */
module Tags {

  /**
    unicode.IsLetter and unicode.IsDigit.  The Unicode tables are not part of this model; they are
    supplied by the caller.
   */
  datatype RuneTable = RuneTable(isLetter: char -> bool, isDigit: char -> bool)

  /** The punctuation and the space that isValidTag admits besides letters and digits. */
  const TagPunctuation: string := "!#$%&()*+-./:;<=>?@[]^_{|}~ "

  predicate TagRune(rt: RuneTable, c: char) {
    c in TagPunctuation || rt.isLetter(c) || rt.isDigit(c)
  }

  /** A usable tag name: non-empty, and made of letters, digits and the admitted punctuation only. */
  predicate ValidTagName(rt: RuneTable, s: string) {
    s != [] && forall i | 0 <= i < |s| :: TagRune(rt, s[i])
  }

  /** The loop of isValidTag. */
  method IsValidTag(rt: RuneTable, s: string) returns (ok: bool)
    ensures ok == ValidTagName(rt, s)
  {
    if s == "" {
      return false;
    }
    var k := 0;
    while k < |s|
      invariant 0 <= k <= |s|
      invariant forall i | 0 <= i < k :: TagRune(rt, s[i])
    {
      var c := s[k];
      if c in TagPunctuation {
        // admitted punctuation
      } else if !rt.isLetter(c) && !rt.isDigit(c) {
        return false;
      }
      k := k + 1;
    }
    return true;
  }

  /** The Unicode classification agrees with ASCII on the characters isValidTag reserves. */
  ghost predicate ReservesQuoting(rt: RuneTable) {
    !rt.isLetter('"') && !rt.isDigit('"') &&
    !rt.isLetter('\\') && !rt.isDigit('\\') &&
    !rt.isLetter(',') && !rt.isDigit(',')
  }

  /** A quote, a backslash or a comma anywhere makes the name invalid. */
  lemma ReservedCharactersRejected(rt: RuneTable, s: string, i: nat)
    requires ReservesQuoting(rt)
    requires i < |s| && s[i] in {'"', '\\', ','}
    ensures !ValidTagName(rt, s)
  {
    assert !TagRune(rt, s[i]);
  }

  /** Every name made of letters only is valid; the empty name never is. */
  lemma LettersAccepted(rt: RuneTable, s: string)
    requires forall i | 0 <= i < |s| :: rt.isLetter(s[i])
    ensures ValidTagName(rt, s) <==> s != []
  {
  }
}
