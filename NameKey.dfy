/**
  `get_first_last_name`: the key the two astronaut tables are joined on. A full name is
  split on runs of whitespace; the key is the first and the last word with one space
  between them, the only word of a one-word name, or None when there are no words or the
  cell is not a string.
*/
module NameKey {
  import opened Wrappers
  import opened PyStr
  import opened Frame

  /** The join key of one `Name` cell. */
  function FirstLastName(fullName: Cell): (key: Option<string>)
    ensures key.None? <==> !fullName.Str? || AllSpace(fullName.s)
    ensures key.Some? ==> key.value != [] && !IsSpace(key.value[0]) && !IsSpace(key.value[|key.value| - 1])
  {
    if !fullName.Str? then None else KeyOfParts(Split(fullName.s))
  }

  /** The key made of the words of a name: the first and the last joined by one space, the
      only word of a one-word name, and None when there are none. */
  function KeyOfParts(parts: seq<string>): (key: Option<string>)
    requires Words(parts)
    ensures key.None? <==> parts == []
    ensures key.Some? ==> key.value != [] && !IsSpace(key.value[0]) && !IsSpace(key.value[|key.value| - 1])
  {
    if |parts| >= 2 then
      var k := parts[0] + " " + parts[|parts| - 1];
      assert k[0] == parts[0][0] && k[|k| - 1] == parts[|parts| - 1][|parts[|parts| - 1]| - 1];
      Some(k)
    else if |parts| == 1 then Some(parts[0])
    else None
  }

  /** The `first_last` cell: the key, or a missing value where the key is None. */
  function KeyCell(fullName: Cell): (c: Cell)
    ensures c.Missing? <==> FirstLastName(fullName).None?
    ensures c.Str? ==> c.s == FirstLastName(fullName).value
  {
    match FirstLastName(fullName)
    case None => Missing
    case Some(k) => Str(k)
  }

  /** The key of a name given as words separated by whitespace (any amount, and any at
      either end): nothing for no words, the word itself for one, and the first and the last
      word for more, whatever lies between them. */
  lemma FirstLastOfWords(gaps: seq<string>, words: seq<string>)
    requires |gaps| == |words| + 1
    requires Separators(gaps) && Words(words)
    ensures |words| == 0 ==> FirstLastName(Str(Weave(gaps, words))) == None
    ensures |words| == 1 ==> FirstLastName(Str(Weave(gaps, words))) == Some(words[0])
    ensures |words| >= 2 ==> FirstLastName(Str(Weave(gaps, words))) == Some(words[0] + " " + words[|words| - 1])
  {
    SplitWeave(gaps, words);
    KeyOfSplit(Weave(gaps, words), words);
  }

  /** The key read off the words `Split` finds. */
  lemma KeyOfSplit(s: string, words: seq<string>)
    requires Split(s) == words
    ensures |words| == 0 ==> FirstLastName(Str(s)) == None
    ensures |words| == 1 ==> FirstLastName(Str(s)) == Some(words[0])
    ensures |words| >= 2 ==> FirstLastName(Str(s)) == Some(words[0] + " " + words[|words| - 1])
  {
  }

  /** A single word with no whitespace is its own key, case and punctuation included. */
  lemma SingleWord(w: string)
    requires w != [] && NoSpace(w)
    ensures FirstLastName(Str(w)) == Some(w)
  {
    assert Weave([[], []], [w]) == w;
    FirstLastOfWords([[], []], [w]);
  }

  /** The key of "first last" is "first last": two words and one space. */
  lemma TwoWords(first: string, last: string)
    requires first != [] && NoSpace(first) && last != [] && NoSpace(last)
    ensures FirstLastName(Str(first + " " + last)) == Some(first + " " + last)
  {
    var gaps := [[], " ", []];
    assert Weave(gaps[2..], []) == [];
    assert Weave(gaps[1..], [last]) == " " + last;
    assert Weave(gaps, [first, last]) == first + " " + last;
    assert Separators(gaps);
    FirstLastOfWords(gaps, [first, last]);
  }

  /** Building the key again from a key gives the same key. */
  lemma FirstLastIdempotent(fullName: Cell)
    requires FirstLastName(fullName).Some?
    ensures FirstLastName(Str(FirstLastName(fullName).value)) == FirstLastName(fullName)
  {
    var parts := Split(fullName.s);
    var key := KeyOfParts(parts);
    assert FirstLastName(fullName) == key;
    if |parts| >= 2 {
      var first, last := parts[0], parts[|parts| - 1];
      assert key == Some(first + " " + last);
      TwoWords(first, last);
    } else {
      assert key == Some(parts[0]);
      SingleWord(parts[0]);
    }
  }

  /** A middle word is dropped from the key. */
  lemma ThreeWords(first: string, middle: string, last: string)
    requires Words([first, middle, last])
    ensures FirstLastName(Str(first + " " + middle + " " + last)) == Some(first + " " + last)
  {
    var gaps := [[], " ", " ", []];
    var words := [first, middle, last];
    assert Weave(gaps[3..], words[3..]) == [];
    assert Weave(gaps[2..], words[2..]) == " " + last;
    assert Weave(gaps[1..], words[1..]) == " " + middle + " " + last;
    assert Weave(gaps, words) == first + " " + middle + " " + last;
    assert Separators(gaps);
    FirstLastOfWords(gaps, words);
  }

  /** "John Fitzgerald Kennedy" gives "John Kennedy". */
  lemma MiddleNameDropped()
    ensures FirstLastName(Str("John" + " " + "Fitzgerald" + " " + "Kennedy")) == Some("John" + " " + "Kennedy")
  {
    assert NoSpace("John") && NoSpace("Fitzgerald") && NoSpace("Kennedy");
    ThreeWords("John", "Fitzgerald", "Kennedy");
  }
}
