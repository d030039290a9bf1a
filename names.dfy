/**
 * `transform_name_into_id`: turns a human-readable check name into an identifier
 * by lower-casing it, deleting every ASCII punctuation character and turning
 * each space into a hyphen, in that order.
 */
module Names {
  import opened Strings
  import opened Seqs

  /** Python's `string.punctuation`: the 32 ASCII punctuation characters, `-` among them. */
  predicate IsPunctuation(c: char) {
    c in "!\"#$%&'()*+,-./:;<=>?@[\\]^_`{|}~"
  }

  /**
   * `str.translate` with a table that deletes every punctuation character: the
   * result keeps, in order, every other character as often as `s` has it.
   */
  function StripPunctuation(s: string): (r: string)
    ensures forall i :: 0 <= i < |r| ==> !IsPunctuation(r[i])
    ensures forall c :: c in r ==> c in s
    ensures IsSubsequence(r, s)
    ensures forall c :: !IsPunctuation(c) ==> Count(r, c) == Count(s, c)
  {
    if s == [] then []
    else if IsPunctuation(s[0]) then StripPunctuation(s[1..])
    else
      var rest := StripPunctuation(s[1..]);
      assert ([s[0]] + rest)[1..] == rest;
      [s[0]] + rest
  }

  /** `str.replace(" ", "-")`. */
  function SpacesToHyphens(s: string): (r: string)
    ensures |r| == |s|
    ensures forall i :: 0 <= i < |s| ==> r[i] == (if s[i] == ' ' then '-' else s[i])
  {
    if s == [] then [] else [if s[0] == ' ' then '-' else s[0]] + SpacesToHyphens(s[1..])
  }

  function TransformNameIntoId(name: string): string {
    SpacesToHyphens(StripPunctuation(Lower(name)))
  }

  /**
   * An identifier holds no ASCII capital, no space, and no punctuation other
   * than the hyphens that replaced spaces.
   */
  lemma IdAlphabet(name: string)
    ensures var id := TransformNameIntoId(name);
      forall i :: 0 <= i < |id| ==>
        !IsAsciiUpper(id[i]) && id[i] != ' ' && (IsPunctuation(id[i]) ==> id[i] == '-')
  {
    var low := Lower(name);
    var stripped := StripPunctuation(low);
    forall i | 0 <= i < |stripped|
      ensures !IsAsciiUpper(stripped[i])
    {
      assert stripped[i] in stripped;
    }
  }

  lemma {:induction false} LowerKeepsSpaces(s: string)
    ensures Count(Lower(s), ' ') == Count(s, ' ')
  {
    if s != [] {
      assert Lower(s)[1..] == Lower(s[1..]);
      LowerKeepsSpaces(s[1..]);
    }
  }

  lemma {:induction false} HyphensFromSpaces(s: string)
    ensures Count(SpacesToHyphens(s), '-') == Count(s, '-') + Count(s, ' ')
  {
    if s != [] {
      assert SpacesToHyphens(s)[1..] == SpacesToHyphens(s[1..]);
      HyphensFromSpaces(s[1..]);
    }
  }

  /**
   * The identifier has exactly as many hyphens as the name has spaces: hyphens
   * already in the name are deleted as punctuation before spaces become hyphens.
   */
  lemma HyphensCountSpaces(name: string)
    ensures Count(TransformNameIntoId(name), '-') == Count(name, ' ')
  {
    var stripped := StripPunctuation(Lower(name));
    LowerKeepsSpaces(name);
    assert !IsPunctuation(' ');
    assert Count(stripped, ' ') == Count(Lower(name), ' ');
    CountAbsent(stripped, '-');
    HyphensFromSpaces(stripped);
  }

  lemma {:induction false} HyphensKeepOthers(s: string, c: char)
    requires c != ' ' && c != '-'
    ensures Count(SpacesToHyphens(s), c) == Count(s, c)
  {
    if s != [] {
      assert SpacesToHyphens(s)[1..] == SpacesToHyphens(s[1..]);
      HyphensKeepOthers(s[1..], c);
    }
  }

  /**
   * Every character that is neither punctuation nor a space occurs in the
   * identifier exactly as often as in the lower-cased name: only punctuation is
   * deleted and only spaces are rewritten.
   */
  lemma IdKeepsCharacters(name: string)
    ensures forall c :: !IsPunctuation(c) && c != ' ' ==>
      Count(TransformNameIntoId(name), c) == Count(Lower(name), c)
  {
    forall c | !IsPunctuation(c) && c != ' '
      ensures Count(TransformNameIntoId(name), c) == Count(Lower(name), c)
    {
      HyphensKeepOthers(StripPunctuation(Lower(name)), c);
    }
  }

  /** A name made only of characters the transform keeps is its own identifier. */
  lemma {:induction false} PlainNameIsItsOwnId(name: string)
    requires forall i :: 0 <= i < |name| ==>
      !IsAsciiUpper(name[i]) && !IsPunctuation(name[i]) && name[i] != ' '
    ensures TransformNameIntoId(name) == name
  {
    if name != [] {
      PlainNameIsItsOwnId(name[1..]);
      assert Lower(name)[1..] == Lower(name[1..]);
      assert StripPunctuation(Lower(name)) == [name[0]] + StripPunctuation(Lower(name[1..]));
    }
  }
}
