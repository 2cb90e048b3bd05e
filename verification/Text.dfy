/** The few string primitives the program relies on: whitespace, stripping, splitting and joining. */
module Text {
  /** Whitespace of str.strip and of the regular-expression class \s, within ASCII. */
  predicate IsSpace(c: char) {
    9 <= c as int <= 13 || 28 <= c as int <= 32
  }

  /** The regular-expression class \w, within ASCII. */
  predicate IsWord(c: char) {
    'a' <= c <= 'z' || 'A' <= c <= 'Z' || '0' <= c <= '9' || c == '_'
  }

  /** The word characters are the letters, the digits and the underscore. */
  lemma WordCharacters(c: char)
    ensures IsWord(c)
       <==> || c in {'a', 'b', 'c', 'd', 'e', 'f', 'g', 'h', 'i', 'j', 'k', 'l', 'm', 'n', 'o', 'p', 'q', 'r', 's', 't', 'u', 'v', 'w', 'x', 'y', 'z'}
            || c in {'A', 'B', 'C', 'D', 'E', 'F', 'G', 'H', 'I', 'J', 'K', 'L', 'M', 'N', 'O', 'P', 'Q', 'R', 'S', 'T', 'U', 'V', 'W', 'X', 'Y', 'Z'}
            || c in {'0', '1', '2', '3', '4', '5', '6', '7', '8', '9', '_'}
  {
  }

  /** The blanks are tab, the three line separators, return, the four information separators and space. */
  lemma BlankCharacters(c: char)
    ensures IsSpace(c) <==> c in {'\t', '\n', '\U{000B}', '\U{000C}', '\r', '\U{001C}', '\U{001D}', '\U{001E}', '\U{001F}', ' '}
  {
  }

  predicate Stripped(s: string) {
    s == "" || (!IsSpace(s[0]) && !IsSpace(s[|s| - 1]))
  }

  function StripLeft(s: string): (r: string)
    ensures r == "" || !IsSpace(r[0])
    ensures forall c :: c in r ==> c in s
  {
    if s != "" && IsSpace(s[0]) then StripLeft(s[1..]) else s
  }

  function StripRight(s: string): (r: string)
    ensures r <= s
    ensures r == "" || !IsSpace(r[|r| - 1])
  {
    if s != "" && IsSpace(s[|s| - 1]) then StripRight(s[..|s| - 1]) else s
  }

  function Strip(s: string): (r: string)
    ensures Stripped(r)
    ensures forall c :: c in r ==> c in s
  {
    StripRight(StripLeft(s))
  }

  /** Blanks around a word disappear, and nothing else does. */
  lemma {:induction false} StripPadded(left: string, word: string, right: string)
    requires forall c :: c in left ==> IsSpace(c)
    requires forall c :: c in right ==> IsSpace(c)
    requires word != "" && Stripped(word)
    ensures Strip(left + word + right) == word
  {
    if left != "" {
      assert (left + word + right)[1..] == left[1..] + word + right;
      StripPadded(left[1..], word, right);
    } else if right != "" {
      var s := left + word + right;
      assert s[0] == word[0] && StripLeft(s) == s;
      assert s[..|s| - 1] == word + right[..|right| - 1];
      StripPadded("", word, right[..|right| - 1]);
      assert "" + word + right[..|right| - 1] == word + right[..|right| - 1];
    } else {
      assert left + word + right == word;
    }
  }

  lemma {:induction false} StripLeftIsEmptyIff(s: string)
    ensures StripLeft(s) == "" <==> forall c :: c in s ==> IsSpace(c)
  {
    if s != "" {
      StripLeftIsEmptyIff(s[1..]);
      assert forall c :: c in s <==> c == s[0] || c in s[1..];
    }
  }

  lemma {:induction false} StripRightKeepsFirst(s: string)
    requires s != "" && !IsSpace(s[0])
    ensures StripRight(s) != ""
  {
    if IsSpace(s[|s| - 1]) {
      StripRightKeepsFirst(s[..|s| - 1]);
    }
  }

  lemma StripIsEmptyIff(s: string)
    ensures Strip(s) == "" <==> forall c :: c in s ==> IsSpace(c)
  {
    StripLeftIsEmptyIff(s);
    var r := StripLeft(s);
    if r != "" {
      StripRightKeepsFirst(r);
    }
  }

  /** str.split on one separator character. */
  function Split(s: string, sep: char): (parts: seq<string>)
    ensures |parts| > 0
    ensures forall i :: 0 <= i < |parts| ==> sep !in parts[i]
  {
    if s == "" then [""]
    else
      var rest := Split(s[1..], sep);
      if s[0] == sep then [""] + rest else [[s[0]] + rest[0]] + rest[1..]
  }

  /** str.join with one separator character. */
  function Join(parts: seq<string>, sep: char): string {
    if parts == [] then ""
    else if |parts| == 1 then parts[0]
    else parts[0] + [sep] + Join(parts[1..], sep)
  }

  lemma {:induction false} SplitAfterPiece(piece: string, rest: string, sep: char)
    requires sep !in piece
    ensures Split(piece, sep) == [piece]
    ensures Split(piece + [sep] + rest, sep) == [piece] + Split(rest, sep)
  {
    if piece == "" {
      assert piece + [sep] + rest == [sep] + rest;
      assert ([sep] + rest)[1..] == rest;
    } else {
      SplitAfterPiece(piece[1..], rest, sep);
      assert [piece[0]] + piece[1..] == piece;
      assert (piece + [sep] + rest)[1..] == piece[1..] + [sep] + rest;
    }
  }

  /** Splitting undoes joining, for any non-empty list of separator-free pieces. */
  lemma {:induction false} SplitJoin(parts: seq<string>, sep: char)
    requires parts != []
    requires forall part :: part in parts ==> sep !in part
    ensures Split(Join(parts, sep), sep) == parts
  {
    assert parts[0] in parts && [parts[0]] + parts[1..] == parts;
    SplitAfterPiece(parts[0], Join(parts[1..], sep), sep);
    if |parts| > 1 {
      SplitJoin(parts[1..], sep);
    }
  }
}
