/** `app-avatar`: an image, or, without one, up to two initials taken from
    the `fallback` name. */
module Avatar {
  import opened Seqs
  import opened Text

  /** `word.charAt(0)`: the first character, or the empty string for an
      empty word. */
  function CharAt0(w: string): (r: string)
    ensures |r| == if w == "" then 0 else 1
    ensures w != "" ==> r[0] == w[0]
  {
    if w == "" then "" else [w[0]]
  }

  /** `.map(word => word.charAt(0)).join('')`. */
  function FirstChars(words: seq<string>): string
  {
    if |words| == 0 then "" else CharAt0(words[0]) + FirstChars(words[1..])
  }

  /** The reference reading of "the first letter of each word": scanning
      the name, each character that is not a space and follows a space (or
      begins the name) is kept; `atStart` says whether the previous
      character was a space. */
  function WordStarts(s: string, atStart: bool): (r: string)
    ensures |r| <= |s|
  {
    if s == [] then ""
    else (if s[0] != ' ' && atStart then [s[0]] else "") + WordStarts(s[1..], s[0] == ' ')
  }

  /** Inside a word the scan keeps at most the word's first letter. */
  lemma {:induction false} WordStartsInWord(w: string, b: bool)
    requires ' ' !in w
    ensures WordStarts(w, b) == if b && w != "" then [w[0]] else ""
  {
    if w != [] {
      WordStartsInWord(w[1..], false);
    }
  }

  /** A word, a space, and the rest: the word gives its first letter, if
      any, and the scan starts afresh after the space. */
  lemma {:induction false} WordStartsAcross(w: string, t: string, b: bool)
    requires ' ' !in w
    ensures WordStarts(w + [' '] + t, b) == (if b && w != "" then [w[0]] else "") + WordStarts(t, true)
  {
    var s := w + [' '] + t;
    if w == [] {
      assert s[1..] == t;
    } else {
      assert s[1..] == w[1..] + [' '] + t;
      WordStartsAcross(w[1..], t, false);
    }
  }

  /** Splitting on spaces and taking each word's first character is the
      reference scan: empty words between consecutive spaces add nothing. */
  lemma {:induction false} FirstCharsOfSplit(s: string)
    ensures FirstChars(Split(s, ' ')) == WordStarts(s, true)
    decreases |s|
  {
    var i := IndexOf(s, ' ');
    if i < 0 {
      WordStartsInWord(s, true);
      assert Split(s, ' ') == [s];
    } else {
      var w := s[..i];
      var t := s[i + 1..];
      assert s == w + [' '] + t;
      assert ' ' !in w;
      var parts := Split(s, ' ');
      assert parts == [w] + Split(t, ' ');
      assert parts[1..] == Split(t, ' ');
      FirstCharsOfSplit(t);
      WordStartsAcross(w, t, true);
    }
  }

  /** The `initials` of `render`: empty without a fallback; otherwise the
      first character of each space-separated word, uppercased, cut to two. */
  function Initials(fallback: string): (r: string)
    ensures |r| <= 2
    ensures fallback == "" ==> r == ""
    ensures var starts := Upper(WordStarts(fallback, true));
      r == if |starts| <= 2 then starts else starts[..2]
  {
    if fallback == "" then ""
    else
      var joined := Upper(FirstChars(Split(fallback, ' ')));
      FirstCharsOfSplit(fallback);
      if |joined| <= 2 then joined else joined[..2]
  }

  /** What the avatar shows: the image with its alt text, or the initials. */
  datatype View = Image(src: string, alt: string) | Text(initials: string)

  /** `render`: with a source, an image whose alt text is `alt`, or the
      initials when `alt` is empty; otherwise the initials as text. */
  function Render(src: string, alt: string, fallback: string): (r: View)
    ensures src != "" <==> r.Image?
    ensures r.Image? ==> r.src == src && r.alt == (if alt != "" then alt else Initials(fallback))
    ensures r.Text? ==> r.initials == Initials(fallback)
  {
    var initials := Initials(fallback);
    if src != "" then Image(src, if alt != "" then alt else initials) else Text(initials)
  }

  /** Upper-casing two lower-case ASCII letters. */
  lemma UpperPair(a: char, b: char)
    requires 'a' <= a <= 'z' && 'a' <= b <= 'z'
    ensures Upper([a, b]) == [UpperChar(a), UpperChar(b)]
  {
  }

  /** Extra spaces between the words change nothing. */
  lemma InitialsSkipEmptyWords()
    ensures Initials("ada  lovelace") == "AL"
  {
    assert "ada  lovelace" == "ada" + [' '] + " lovelace" && " lovelace" == "" + [' '] + "lovelace";
    WordStartsAcross("ada", " lovelace", true);
    WordStartsAcross("", "lovelace", true);
    WordStartsInWord("lovelace", true);
    assert WordStarts("ada  lovelace", true) == "al";
    UpperPair('a', 'l');
  }

  /** A leading space gives one empty word first. */
  lemma InitialsLeadingSpace()
    ensures Initials(" grace") == "G"
  {
    assert " grace" == "" + [' '] + "grace";
    WordStartsAcross("", "grace", true);
    WordStartsInWord("grace", true);
    assert WordStarts(" grace", true) == "g";
    assert Upper("g") == "G";
  }

  /** A third word is cut off. */
  lemma InitialsCutToTwo()
    ensures Initials("a b c") == "AB"
  {
    assert "a b c" == "a" + [' '] + "b c" && "b c" == "b" + [' '] + "c";
    WordStartsAcross("a", "b c", true);
    WordStartsAcross("b", "c", true);
    WordStartsInWord("c", true);
    assert WordStarts("a b c", true) == "abc";
    assert Upper("abc")[..2] == Upper("ab");
    UpperPair('a', 'b');
  }
}
