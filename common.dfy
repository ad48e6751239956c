/** Values shared by both apps: optional JSON fields, the text-field cleaner and the
    output-type radio. */
module Common {
  import opened Seqs

  datatype Option<T> = None | Some(value: T)

  function GetOr<T>(o: Option<T>, default: T): T
  {
    match o
    case Some(v) => v
    case None => default
  }

  /** The value of every filter widget that filters nothing. */
  const NoFilter: string := "No Filter"

  /** `key in d` for a string key of a dictionary whose keys are single characters. */
  predicate IsKey<V>(s: string, m: map<char, V>)
  {
    |s| == 1 && s[0] in m
  }

  /** The placeholder shown for a missing text field (U+2014 EM DASH). */
  const Dash: string := "\U{2014}"

  /** A text-valued JSON field of a character record (pinyin, definition, radical, hint,
      details): JSON null, a string, or a list of strings. */
  datatype Field = Null | Text(s: string) | Texts(items: seq<string>)

  /** Python truthiness of the field. */
  predicate Truthy(f: Field)
  {
    match f
    case Null => false
    case Text(s) => s != ""
    case Texts(items) => items != []
  }

  /** `clean_field`: the first element of a non-empty list, the field itself when it is
      truthy, the dash otherwise. */
  function CleanField(f: Field): (r: string)
    ensures f.Texts? && f.items != [] ==> r == f.items[0]
    ensures f.Text? && f.s != "" ==> r == f.s
    ensures !Truthy(f) ==> r == Dash
  {
    match f
    case Texts(items) => if items != [] then items[0] else Dash
    case Text(s) => if s != "" then s else Dash
    case Null => Dash
  }

  /** The "Output Type" / "Display Mode" radio; its labels are the strings the session
      state holds. */
  datatype DisplayMode = SingleCharacter | TwoCharacterPhrases | ThreeCharacterPhrases | FourCharacterPhrases
  {
    function Label(): string
    {
      match this
      case SingleCharacter => "Single Character"
      case TwoCharacterPhrases => "2-Character Phrases"
      case ThreeCharacterPhrases => "3-Character Phrases"
      case FourCharacterPhrases => "4-Character Phrases"
    }

    /** `int(display_mode[0])`, only evaluated outside single-character mode. */
    function PhraseLength(): (n: int)
      requires !SingleCharacter?
      ensures TwoCharacterPhrases? ==> n == 2
      ensures ThreeCharacterPhrases? ==> n == 3
      ensures FourCharacterPhrases? ==> n == 4
    {
      DigitValue(Label()[0])
    }
  }

  /** The value of an ASCII decimal digit. */
  function DigitValue(ch: char): (n: int)
    requires '0' <= ch <= '9'
    ensures 0 <= n <= 9
  {
    ch as int - '0' as int
  }

  function OfLength(n: int): string -> bool
  {
    w => |w| == n
  }

  /** The compound list shown for a character: none in single-character mode, otherwise
      the stored compounds whose length is the digit of the mode, in stored order. */
  function PhraseCompounds(stored: seq<string>, mode: DisplayMode): (r: seq<string>)
    ensures mode.SingleCharacter? ==> r == []
    ensures !mode.SingleCharacter? ==> IsSubseq(r, stored)
    ensures !mode.SingleCharacter? ==> forall w :: w in r <==> w in stored && |w| == mode.PhraseLength()
    ensures !mode.SingleCharacter? ==>
      forall w :: multiset(r)[w] == if |w| == mode.PhraseLength() then multiset(stored)[w] else 0
  {
    if mode.SingleCharacter? then []
    else
      FilterCounts(stored, OfLength(mode.PhraseLength()));
      Filter(stored, OfLength(mode.PhraseLength()))
  }
}
