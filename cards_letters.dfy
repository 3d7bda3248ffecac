/** cards_to_string and cards_from_string: card i is written as the i-th
    letter of string.ascii_letters. */
module CardLetters {
  import opened Options
  import opened CardRules

  /** string.ascii_letters: ascii_lowercase followed by ascii_uppercase. */
  function Letters(): string
  {
    seq(52, Letter)
  }

  /** The i-th letter, worked out from the two alphabets. */
  function Letter(i: int): char
    requires 0 <= i < 52
  {
    if i < 26 then ('a' as int + i) as char else ('A' as int + (i - 26)) as char
  }

  /** ascii_letters.index(ch), worked out from the two alphabets. */
  function LetterIndex(ch: char): Option<nat>
  {
    if 'a' <= ch <= 'z' then Some((ch as int - 'a' as int) as nat)
    else if 'A' <= ch <= 'Z' then Some((ch as int - 'A' as int + 26) as nat)
    else None
  }

  /** The constant is the two alphabets one after the other. */
  lemma LettersAreAlphabets()
    ensures |Letters()| == 52 && forall i :: 0 <= i < 52 ==> Letters()[i] == Letter(i)
  {
  }

  /** cards_to_string: None when a card has no letter (IndexError). */
  function CardsToString(cards: seq<nat>): (s: Option<string>)
    ensures s.Some? <==> forall i :: 0 <= i < |cards| ==> cards[i] < 52
    ensures s.Some? ==> |s.value| == |cards| && forall i :: 0 <= i < |cards| ==> s.value[i] == Letters()[cards[i]]
  {
    if cards == [] then Some("")
    else if cards[0] >= 52 then None
    else
      match CardsToString(cards[1..])
      case None => None
      case Some(rest) => Some([Letters()[cards[0]]] + rest)
  }

  /** cards_from_string: None when a character is not a letter (ValueError). */
  function CardsFromString(s: string): (cards: Option<seq<nat>>)
    ensures cards.Some? <==> forall i :: 0 <= i < |s| ==> s[i] in Letters()
    ensures cards.Some? ==> |cards.value| == |s| && forall i :: 0 <= i < |s| ==>
      cards.value[i] < 52 && Letters()[cards.value[i]] == s[i]
  {
    if s == [] then Some([])
    else
      match IndexIn(s[0])
      case None => None
      case Some(i) =>
        match CardsFromString(s[1..])
        case None => None
        case Some(rest) => Some([i] + rest)
  }

  /** ascii_letters.index(ch): the first position of `ch` in the letters. */
  function IndexIn(ch: char): (r: Option<nat>)
    ensures r.None? <==> ch !in Letters()
    ensures r.Some? ==> r.value < 52 && Letters()[r.value] == ch && forall j :: 0 <= j < r.value ==> Letters()[j] != ch
  {
    LettersAreAlphabets();
    var r := LetterIndex(ch);
    if r.Some? then
      assert Letters()[r.value] == ch;
      r
    else
      assert forall j :: 0 <= j < 52 ==> Letters()[j] != ch;
      r
  }

  /** Writing cards and reading them back gives the cards. */
  lemma {:induction false} FromToString(cards: seq<nat>)
    requires forall i :: 0 <= i < |cards| ==> cards[i] < 52
    ensures CardsToString(cards).Some? && CardsFromString(CardsToString(cards).value) == Some(cards)
  {
    if cards != [] {
      FromToString(cards[1..]);
      var rest := CardsToString(cards[1..]).value;
      var s := [Letters()[cards[0]]] + rest;
      assert CardsToString(cards) == Some(s);
      assert s[0] == Letters()[cards[0]] && s[1..] == rest;
      LettersDistinct(cards[0]);
      assert CardsFromString(s) == Some([cards[0]] + cards[1..]);
      assert [cards[0]] + cards[1..] == cards;
    }
  }

  /** Reading letters and writing the cards back gives the letters. */
  lemma {:induction false} ToFromString(s: string)
    requires forall i :: 0 <= i < |s| ==> s[i] in Letters()
    ensures CardsFromString(s).Some? && CardsToString(CardsFromString(s).value) == Some(s)
  {
    if s != [] {
      ToFromString(s[1..]);
      var i := IndexIn(s[0]).value;
      var rest := CardsFromString(s[1..]).value;
      assert CardsFromString(s) == Some([i] + rest);
      var cards := [i] + rest;
      assert cards[0] == i && cards[1..] == rest;
      assert CardsToString(cards) == Some([s[0]] + s[1..]);
      assert [s[0]] + s[1..] == s;
    }
  }

  /** No letter comes twice, so the index of the i-th letter is i. */
  lemma LettersDistinct(i: nat)
    requires i < 52
    ensures IndexIn(Letters()[i]) == Some(i)
  {
    LettersAreAlphabets();
  }
}
