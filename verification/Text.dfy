/** What the relay takes for an empty text: one of which trimming leaves nothing. */
module Text {
  import opened Basics

  /** The characters with the White_Space property of the Unicode Character Database. */
  const WHITE_SPACE: string :=
    "\t\n\U{B}\U{C}\r \U{85}\U{A0}\U{1680}\U{2000}\U{2001}\U{2002}\U{2003}\U{2004}\U{2005}\U{2006}\U{2007}\U{2008}"
    + "\U{2009}\U{200A}\U{2028}\U{2029}\U{202F}\U{205F}\U{3000}"

  /** The text without the white space around it. */
  function Trim(s: string): string {
    if s != [] && IsWhitespace(s[0]) then Trim(s[1..])
    else if s != [] && IsWhitespace(s[|s| - 1]) then Trim(s[..|s| - 1])
    else s
  }

  /** White space is what the database lists as such, and nothing else. */
  lemma WhitespaceIsListed(c: char)
    ensures IsWhitespace(c) <==> c in WHITE_SPACE
  {
    if IsWhitespace(c) {
      var code := c as int;
      var i := if 9 <= code <= 13 then code - 9 else if code == 32 then 5 else if code == 0x85 then 6
               else if code == 0xA0 then 7 else if code == 0x1680 then 8
               else if 0x2000 <= code <= 0x200A then 9 + code - 0x2000 else if code == 0x2028 then 20
               else if code == 0x2029 then 21 else if code == 0x202F then 22 else if code == 0x205F then 23 else 24;
      assert WHITE_SPACE[i] as int == code;
      assert WHITE_SPACE[i] == c;
    }
  }

  lemma {:induction false} BlankTrimsToNothing(s: string)
    ensures IsBlank(s) <==> Trim(s) == ""
  {
    if s != [] {
      if IsWhitespace(s[0]) {
        BlankTrimsToNothing(s[1..]);
        assert s == [s[0]] + s[1..];
      } else if IsWhitespace(s[|s| - 1]) {
        BlankTrimsToNothing(s[..|s| - 1]);
        assert s == s[..|s| - 1] + [s[|s| - 1]];
      }
    }
  }

  /** A text is blank exactly when trimming leaves nothing of it. */
  lemma BlankMeaning()
    ensures forall s :: IsBlank(s) <==> Trim(s) == ""
  {
    forall s ensures IsBlank(s) <==> Trim(s) == "" {
      BlankTrimsToNothing(s);
    }
  }
}
