/**
 * The conversion between cards and the rows of the flash card file. Loading
 * keeps a row only when it has exactly three fields and its first field names
 * a card kind; saving writes one three-field row per card, kind first. Opening
 * the file and the CSV encoding of rows are not part of this model: rows come
 * in and go out as sequences of fields.
 */
module Store {
  import opened Wrappers
  import opened FlashCards

  type Row = seq<string>

  const VocabularyTag: string := "Vocabulary"
  const MathTag: string := "Math"

  /** The card a row stands for, or None when loading skips the row. */
  function RowCard(row: Row): (r: Option<Card>)
    ensures r.Some? <==> |row| == 3 && (row[0] == VocabularyTag || row[0] == MathTag)
    ensures r.Some? ==> r.value.question == row[1] && r.value.answer == row[2]
    ensures r.Some? ==> (r.value.Vocabulary? <==> row[0] == VocabularyTag)
  {
    if |row| == 3 then
      if row[0] == VocabularyTag then Some(Vocabulary(row[1], row[2]))
      else if row[0] == MathTag then Some(Math(row[1], row[2]))
      else None
    else None
  }

  /** The row saving writes for a card; loading that row gives the card back. */
  function CardRow(card: Card): (row: Row)
    ensures |row| == 3
    ensures RowCard(row) == Some(card)
  {
    var tag := if card.Vocabulary? then VocabularyTag else MathTag;
    [tag, card.question, card.answer]
  }

  /** The cards loading produces from the rows, in row order. */
  function RowsToCards(rows: seq<Row>): (cards: seq<Card>)
    ensures |cards| <= |rows|
  {
    if rows == [] then []
    else
      (match RowCard(rows[0]) case Some(c) => [c] case None => []) + RowsToCards(rows[1..])
  }

  /** The rows saving writes for the cards, one per card, in card order. */
  function CardsToRows(cards: seq<Card>): (rows: seq<Row>)
    ensures |rows| == |cards|
    ensures forall k :: 0 <= k < |cards| ==> rows[k] == CardRow(cards[k])
  {
    if cards == [] then [] else [CardRow(cards[0])] + CardsToRows(cards[1..])
  }

  /** The rows loading keeps, unchanged and in order. */
  function KeptRows(rows: seq<Row>): (kept: seq<Row>)
    ensures |kept| <= |rows|
    ensures forall k :: 0 <= k < |kept| ==> RowCard(kept[k]).Some?
    ensures forall r :: r in kept <==> r in rows && RowCard(r).Some?
  {
    if rows == [] then []
    else (if RowCard(rows[0]).Some? then [rows[0]] else []) + KeptRows(rows[1..])
  }

  /** Loading rows a and then rows b gives the cards of a followed by the cards of b. */
  lemma {:induction false} RowsToCardsAppend(a: seq<Row>, b: seq<Row>)
    ensures RowsToCards(a + b) == RowsToCards(a) + RowsToCards(b)
  {
    if a != [] {
      assert (a + b)[0] == a[0] && (a + b)[1..] == a[1..] + b;
      RowsToCardsAppend(a[1..], b);
      var head := match RowCard(a[0]) case Some(c) => [c] case None => [];
      assert RowsToCards(a + b) == head + RowsToCards(a[1..] + b);
    } else {
      assert a + b == b;
    }
  }

  /** The rows kept from a followed by b are those kept from a followed by those kept from b. */
  lemma {:induction false} KeptRowsAppend(a: seq<Row>, b: seq<Row>)
    ensures KeptRows(a + b) == KeptRows(a) + KeptRows(b)
  {
    if a != [] {
      assert (a + b)[0] == a[0] && (a + b)[1..] == a[1..] + b;
      KeptRowsAppend(a[1..], b);
      var head := if RowCard(a[0]).Some? then [a[0]] else [];
      assert KeptRows(a + b) == head + KeptRows(a[1..] + b);
    } else {
      assert a + b == b;
    }
  }

  /** A card is loaded exactly when some row of the file stands for it. */
  lemma {:induction false} RowsToCardsMember(rows: seq<Row>, card: Card)
    ensures card in RowsToCards(rows) <==> exists k :: 0 <= k < |rows| && RowCard(rows[k]) == Some(card)
  {
    if rows != [] {
      RowsToCardsMember(rows[1..], card);
      if exists k :: 0 <= k < |rows| && RowCard(rows[k]) == Some(card) {
        var k :| 0 <= k < |rows| && RowCard(rows[k]) == Some(card);
        if k > 0 {
          assert RowCard(rows[1..][k - 1]) == Some(card);
        }
      }
      if exists k :: 0 <= k < |rows| - 1 && RowCard(rows[1..][k]) == Some(card) {
        var k :| 0 <= k < |rows| - 1 && RowCard(rows[1..][k]) == Some(card);
        assert RowCard(rows[k + 1]) == Some(card);
      }
    }
  }

  /** Loading drops no row exactly when every row has three fields and a known kind. */
  lemma {:induction false} RowsToCardsKeepsAll(rows: seq<Row>)
    ensures |RowsToCards(rows)| == |rows| <==> forall k :: 0 <= k < |rows| ==> RowCard(rows[k]).Some?
  {
    if rows != [] {
      RowsToCardsKeepsAll(rows[1..]);
      if forall k :: 0 <= k < |rows| - 1 ==> RowCard(rows[1..][k]).Some? {
        assert forall k :: 1 <= k < |rows| ==> RowCard(rows[k]) == RowCard(rows[1..][k - 1]);
      }
      if forall k :: 0 <= k < |rows| ==> RowCard(rows[k]).Some? {
        assert forall k :: 0 <= k < |rows| - 1 ==> RowCard(rows[1..][k]) == RowCard(rows[k + 1]);
      }
    }
  }

  /** Saving cards and loading the rows back gives the same cards, in the same order. */
  lemma {:induction false} LoadAfterSave(cards: seq<Card>)
    ensures RowsToCards(CardsToRows(cards)) == cards
  {
    if cards != [] {
      var rows := CardsToRows(cards);
      assert rows[1..] == CardsToRows(cards[1..]);
      LoadAfterSave(cards[1..]);
    }
  }

  /** Loading rows and saving the cards writes back exactly the rows loading kept. */
  lemma {:induction false} SaveAfterLoad(rows: seq<Row>)
    ensures CardsToRows(RowsToCards(rows)) == KeptRows(rows)
  {
    if rows != [] {
      SaveAfterLoad(rows[1..]);
      var row := rows[0];
      match RowCard(row)
      case Some(c) =>
        assert CardRow(c) == row;
        assert RowsToCards(rows) == [c] + RowsToCards(rows[1..]);
        assert CardsToRows([c] + RowsToCards(rows[1..]))[1..] == CardsToRows(RowsToCards(rows[1..]));
      case None =>
    }
  }

  /** Saving what was saved and loaded back writes the same rows again. */
  lemma SaveIsStable(cards: seq<Card>)
    ensures CardsToRows(RowsToCards(CardsToRows(cards))) == CardsToRows(cards)
  {
    LoadAfterSave(cards);
  }

  /** The loop of the loader: walks the rows and appends the card of each kept one. */
  method LoadCards(rows: seq<Row>) returns (cards: seq<Card>)
    ensures cards == RowsToCards(rows)
  {
    cards := [];
    for i := 0 to |rows|
      invariant cards == RowsToCards(rows[..i])
    {
      var row := rows[i];
      if |row| == 3 {
        if row[0] == VocabularyTag {
          cards := cards + [Vocabulary(row[1], row[2])];
        } else if row[0] == MathTag {
          cards := cards + [Math(row[1], row[2])];
        }
      }
      assert rows[..i + 1] == rows[..i] + [row];
      RowsToCardsAppend(rows[..i], [row]);
    }
    assert rows[..|rows|] == rows;
  }

  /** The loop of the saver: writes one row per card, kind first. */
  method SaveCards(cards: seq<Card>) returns (rows: seq<Row>)
    ensures rows == CardsToRows(cards)
  {
    rows := [];
    for i := 0 to |cards|
      invariant |rows| == i
      invariant forall k :: 0 <= k < i ==> rows[k] == CardRow(cards[k])
    {
      var card := cards[i];
      var cardType := if card.Vocabulary? then VocabularyTag else MathTag;
      rows := rows + [[cardType, card.question, card.answer]];
    }
  }
}
