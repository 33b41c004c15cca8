/**
 * The customer-review board: a bounded, newest-first list of reviews kept in
 * one browser storage slot, the submit and delete handlers that
 * read-modify-write it, and the projection of the list onto the full list
 * and the side panel.
 */
module Reviews {
  import opened Wrappers
  import opened JsText
  import opened Html

  /** One review as stored. `when` is the ISO-8601 timestamp, kept as text; `rating` is `None` when it was NaN. */
  datatype Review = Review(name: string, text: string, when: string, rating: Option<int>)

  /** The most reviews a submission leaves behind. */
  const Capacity: nat := 20

  /** The storage slot `kagape_reviews`: nothing stored, text that does not parse, or a saved list. */
  datatype Slot = Missing | Unparsable | Saved(reviews: seq<Review>)

  /** `loadReviews`: the saved list, or the empty list when storage is absent or corrupt. It never fails. */
  function Load(slot: Slot): seq<Review> {
    if slot.Saved? then slot.reviews else []
  }

  // ----- building a review from the form -----

  /** The name field's value, or `Anonymous` when the field is absent or empty (before trimming). */
  function NameValue(field: Option<string>): string {
    match field
    case Some(v) => if v == "" then "Anonymous" else v
    case None => "Anonymous"
  }

  /** The text field's value, or the empty string when the field is absent. */
  function TextValue(field: Option<string>): string {
    field.GetOr("")
  }

  /** The checked rating's value parsed by `parseInt`, or 1 when no rating is checked. */
  function RatingValue(checked: Option<string>): Option<int> {
    match checked
    case Some(v) => ParseInt(v)
    case None => Some(1)
  }

  /** The record the submit handler puts at the head of the list. */
  function NewReview(nameField: Option<string>, textField: Option<string>, checked: Option<string>, now: string): Review {
    Review(Trim(NameValue(nameField)), Trim(TextValue(textField)), now, RatingValue(checked))
  }

  /** The name of a new review: `Anonymous` only for an absent or empty field, otherwise the trimmed value. */
  lemma NewReviewName(nameField: Option<string>, textField: Option<string>, checked: Option<string>, now: string)
    ensures var name := NewReview(nameField, textField, checked, now).name;
      && (nameField == None || nameField == Some("") ==> name == "Anonymous")
      && (nameField.Some? && AllSpace(nameField.value) && nameField.value != "" ==> name == "")
      && (name != [] ==> !IsJsSpace(name[0]) && !IsJsSpace(name[|name| - 1]))
  {
    TrimIsMaximalSlice(NameValue(nameField));
    TrimEmptyIffAllSpace(NameValue(nameField));
    TrimUntouched("Anonymous");
  }

  /** The text of a new review is trimmed; it is empty exactly when the field holds only white space. */
  lemma NewReviewText(nameField: Option<string>, textField: Option<string>, checked: Option<string>, now: string)
    ensures var text := NewReview(nameField, textField, checked, now).text;
      && (text == [] <==> AllSpace(TextValue(textField)))
      && (text != [] ==> !IsJsSpace(text[0]) && !IsJsSpace(text[|text| - 1]))
  {
    TrimIsMaximalSlice(TextValue(textField));
    TrimEmptyIffAllSpace(TextValue(textField));
  }

  /** The rating of a new review: 1 when nothing is checked, otherwise the checked value read by `parseInt`. */
  lemma NewReviewRating(nameField: Option<string>, textField: Option<string>, checked: Option<string>, now: string, k: nat)
    ensures var r := NewReview(nameField, textField, checked, now);
      && r.when == now
      && (checked == None ==> r.rating == Some(1))
      && (checked == Some(Decimal(k)) ==> r.rating == Some(k))
  {
    ParseIntDecimal(k);
  }

  // ----- the list operations -----

  /**
   * `unshift` the new review, then `pop` once if the list is now longer than
   * the capacity. The new review comes first and the old ones follow in
   * their order; a list within the capacity stays within it, and a list
   * already over it keeps its length.
   */
  function AddReview(list: seq<Review>, r: Review): (out: seq<Review>)
    ensures |out| == if |list| < Capacity then |list| + 1 else |list|
    ensures out[0] == r
    ensures out[1..] == list[..|out| - 1]
    ensures |list| <= Capacity ==> |out| <= Capacity
  {
    var grown := [r] + list;
    if |grown| > Capacity then grown[..|grown| - 1] else grown
  }

  /**
   * The delete handler on a parsed index: out of range or not confirmed
   * changes nothing; otherwise `splice(idx, 1)` removes exactly the review at
   * `idx` and keeps the others in their order.
   */
  function DeleteAt(list: seq<Review>, idx: int, confirmed: bool): (out: seq<Review>)
    ensures idx < 0 || idx >= |list| || !confirmed ==> out == list
    ensures 0 <= idx < |list| && confirmed ==>
      && |out| == |list| - 1
      && out[..idx] == list[..idx]
      && out[idx..] == list[idx + 1..]
      && multiset(out) + multiset{list[idx]} == multiset(list)
  {
    if idx < 0 || idx >= |list| || !confirmed then list
    else
      var out := list[..idx] + list[idx + 1..];
      assert list == list[..idx] + [list[idx]] + list[idx + 1..];
      out
  }

  // ----- many submissions -----

  /** The list after each review of `rs` is submitted in turn, oldest first. */
  function SubmitAll(list: seq<Review>, rs: seq<Review>): seq<Review>
    decreases |rs|
  {
    if rs == [] then list else AddReview(SubmitAll(list, rs[..|rs| - 1]), rs[|rs| - 1])
  }

  /** `rs` most recent first. */
  function NewestFirst(rs: seq<Review>): (r: seq<Review>)
    ensures |r| == |rs|
    decreases |rs|
  {
    if rs == [] then [] else [rs[|rs| - 1]] + NewestFirst(rs[..|rs| - 1])
  }

  /** The first `Capacity` elements of `s`. */
  function Cap(s: seq<Review>): seq<Review> {
    if |s| > Capacity then s[..Capacity] else s
  }

  /**
   * Starting from a list within the capacity, any run of submissions leaves
   * the newest submissions first, then the older list, cut to the capacity.
   */
  lemma {:induction false} SubmitAllKeepsNewest(list: seq<Review>, rs: seq<Review>)
    requires |list| <= Capacity
    ensures SubmitAll(list, rs) == Cap(NewestFirst(rs) + list)
    decreases |rs|
  {
    if rs != [] {
      var front := rs[..|rs| - 1];
      var r := rs[|rs| - 1];
      SubmitAllKeepsNewest(list, front);
      var before := Cap(NewestFirst(front) + list);
      assert NewestFirst(rs) + list == [r] + (NewestFirst(front) + list);
      var after := AddReview(before, r);
      assert after == Cap([r] + before);
      assert Cap([r] + before) == Cap([r] + (NewestFirst(front) + list));
    }
  }

  /** After more than `Capacity` submissions the list is exactly the `Capacity` most recent, newest first. */
  lemma ManySubmissionsKeepTwenty(list: seq<Review>, rs: seq<Review>)
    requires |list| <= Capacity && |rs| > Capacity
    ensures |SubmitAll(list, rs)| == Capacity
    ensures SubmitAll(list, rs) == NewestFirst(rs)[..Capacity]
    ensures forall i :: 0 <= i < Capacity ==> SubmitAll(list, rs)[i] == rs[|rs| - 1 - i]
  {
    SubmitAllKeepsNewest(list, rs);
    assert (NewestFirst(rs) + list)[..Capacity] == NewestFirst(rs)[..Capacity];
    forall i | 0 <= i < Capacity ensures NewestFirst(rs)[i] == rs[|rs| - 1 - i] {
      NewestFirstAt(rs, i);
    }
  }

  lemma {:induction false} NewestFirstAt(rs: seq<Review>, i: nat)
    requires i < |rs|
    ensures NewestFirst(rs)[i] == rs[|rs| - 1 - i]
    decreases |rs|
  {
    if i > 0 {
      NewestFirstAt(rs[..|rs| - 1], i - 1);
    }
  }

  // ----- the rendered views -----

  /** One row of the full list: the escaped name and text, the rating, the time, and the delete button's `data-idx`. */
  datatype Row = Row(dataIdx: string, nameHtml: string, rating: Option<int>, when: string, textHtml: string)

  /** One row of the side panel: escaped name, rating and escaped shortened text. */
  datatype SideRow = SideRow(nameHtml: string, rating: Option<int>, textHtml: string)

  /** `renderReviews`: the empty-state placeholder with the side panel hidden, or both lists. */
  datatype View = NoReviews | Listing(rows: seq<Row>, side: seq<SideRow>)

  const SideCount: nat := 3

  function RowOf(r: Review, idx: nat): Row {
    Row(Decimal(idx), EscapeHtml(r.name), r.rating, r.when, EscapeHtml(r.text))
  }

  function SideRowOf(r: Review): SideRow {
    SideRow(EscapeHtml(r.name), r.rating, EscapeHtml(ShortText(r.text)))
  }

  function Render(items: seq<Review>): View {
    if items == [] then NoReviews
    else
      var shown := if |items| > SideCount then items[..SideCount] else items;
      Listing(seq(|items|, i requires 0 <= i < |items| => RowOf(items[i], i)),
              seq(|shown|, i requires 0 <= i < |shown| => SideRowOf(shown[i])))
  }

  /**
   * What the full list shows: the placeholder exactly when the list is
   * empty; otherwise one row per review in list order displaying its name and
   * text as plain text, with a delete index that `parseInt` reads back as the
   * row's position.
   */
  lemma RenderShowsRows(items: seq<Review>)
    ensures Render(items).NoReviews? <==> items == []
    ensures Render(items).Listing? ==>
      var rows := Render(items).rows;
      && |rows| == |items|
      && (forall i :: 0 <= i < |items| ==>
            && ParseInt(rows[i].dataIdx) == Some(i)
            && Unescape(rows[i].nameHtml) == items[i].name
            && Unescape(rows[i].textHtml) == items[i].text
            && rows[i].rating == items[i].rating
            && rows[i].when == items[i].when)
  {
    if items != [] {
      var rows := Render(items).rows;
      forall i | 0 <= i < |items|
        ensures ParseInt(rows[i].dataIdx) == Some(i)
        ensures Unescape(rows[i].nameHtml) == items[i].name
        ensures Unescape(rows[i].textHtml) == items[i].text
      {
        assert rows[i] == RowOf(items[i], i);
        ParseIntDecimal(i);
        UnescapeEscape(items[i].name);
        UnescapeEscape(items[i].text);
      }
    }
  }

  /** The side panel shows the first three reviews in order, with shortened text. */
  lemma RenderShowsSide(items: seq<Review>)
    ensures Render(items).Listing? ==>
      var side := Render(items).side;
      && |side| == (if |items| < SideCount then |items| else SideCount)
      && (forall i :: 0 <= i < |side| ==>
            && Unescape(side[i].nameHtml) == items[i].name
            && Unescape(side[i].textHtml) == ShortText(items[i].text)
            && side[i].rating == items[i].rating)
  {
    if items != [] {
      var side := Render(items).side;
      forall i | 0 <= i < |side|
        ensures Unescape(side[i].nameHtml) == items[i].name
        ensures Unescape(side[i].textHtml) == ShortText(items[i].text)
        ensures side[i].rating == items[i].rating
      {
        assert side[i] == SideRowOf(items[i]);
        UnescapeEscape(items[i].name);
        UnescapeEscape(ShortText(items[i].text));
      }
    }
  }

  /** No rendered field can open a tag or leave an attribute value. */
  lemma RenderIsInert(items: seq<Review>)
    ensures Render(items).Listing? ==>
      var v := Render(items);
      && (forall i, k :: 0 <= i < |v.rows| && 0 <= k < |v.rows[i].textHtml| ==> IsInert(v.rows[i].textHtml[k]))
      && (forall i, k :: 0 <= i < |v.rows| && 0 <= k < |v.rows[i].nameHtml| ==> IsInert(v.rows[i].nameHtml[k]))
      && (forall i, k :: 0 <= i < |v.side| && 0 <= k < |v.side[i].textHtml| ==> IsInert(v.side[i].textHtml[k]))
      && (forall i, k :: 0 <= i < |v.side| && 0 <= k < |v.side[i].nameHtml| ==> IsInert(v.side[i].nameHtml[k]))
  {
    if items != [] {
      var v := Render(items);
      forall i | 0 <= i < |v.side| ensures v.side[i] == SideRowOf(items[i]) {
      }
    }
  }

  // ----- the handlers -----

  /** The review board's state: the storage slot the handlers read and write. */
  class ReviewBoard {
    var slot: Slot

    constructor (initial: Slot)
      ensures slot == initial
    {
      slot := initial;
    }

    /** The list the board currently shows. */
    function Items(): seq<Review>
      reads this
    {
      Load(slot)
    }

    /**
     * The review form's submit handler. Text that is empty after trimming
     * changes nothing and does not reset the form. Otherwise the new review
     * is put at the head of the loaded list, the list is cut back to the
     * capacity and saved over the slot, and the form is reset.
     */
    method Submit(nameField: Option<string>, textField: Option<string>, checked: Option<string>, now: string)
      returns (reset: bool)
      modifies this
      ensures reset <==> Trim(TextValue(textField)) != []
      ensures !reset ==> slot == old(slot)
      ensures reset ==> slot == Saved(AddReview(old(Items()), NewReview(nameField, textField, checked, now)))
    {
      var name := NameValue(nameField);
      var text := TextValue(textField);
      var rating := RatingValue(checked);
      if Trim(text) == [] {
        return false;
      }
      var list := Load(slot);
      list := [Review(Trim(name), Trim(text), now, rating)] + list;
      if |list| > Capacity {
        list := list[..|list| - 1];
      }
      slot := Saved(list);
      reset := true;
    }

    /**
     * A delete button's click handler. `dataIdx` is the button's `data-idx`
     * and `confirmed` the answer to the confirmation dialog. An index out of
     * range or a declined confirmation changes nothing; otherwise the review
     * at the index is removed and the list saved. A NaN index passes the
     * range guard (NaN compares false) and `splice` treats it as 0.
     */
    method Delete(dataIdx: string, confirmed: bool)
      modifies this
      ensures var items := old(Items());
        match ParseInt(dataIdx)
        case Some(idx) =>
          slot == if 0 <= idx < |items| && confirmed then Saved(DeleteAt(items, idx, confirmed)) else old(slot)
        case None =>
          slot == if confirmed then Saved(DeleteAt(items, 0, confirmed)) else old(slot)
    {
      var items := Load(slot);
      var parsed := ParseInt(dataIdx);
      if parsed.Some? && (parsed.value < 0 || parsed.value >= |items|) {
        return;
      }
      if !confirmed {
        return;
      }
      var idx := parsed.GetOr(0);
      if idx < |items| {
        items := items[..idx] + items[idx + 1..];
      }
      slot := Saved(items);
    }
  }

  /** Deleting through a rendered row's button removes exactly that row's review, once confirmed. */
  lemma DeleteRenderedRow(items: seq<Review>, i: nat, confirmed: bool)
    requires i < |items|
    ensures Render(items).Listing?
    ensures var idx := ParseInt(Render(items).rows[i].dataIdx);
      idx == Some(i as int) && DeleteAt(items, idx.value, confirmed) == (if confirmed then items[..i] + items[i + 1..] else items)
  {
    RenderShowsRows(items);
  }

  /**
   * Storage that is absent or does not parse loads as the empty list, so a
   * submission over it saves just the new review; a saved list loads back
   * as it was.
   */
  lemma StorageStartsOver(slot: Slot, r: Review)
    ensures !slot.Saved? ==> Load(slot) == [] && AddReview(Load(slot), r) == [r]
    ensures slot.Saved? ==> Load(slot) == slot.reviews
  {
  }

  /** The first review on an empty board: the list holds just it. */
  lemma FirstReviewScenario(now: string)
    ensures AddReview(Load(Missing), NewReview(Some("Ada"), Some("Great coffee!"), Some("5"), now))
         == [Review("Ada", "Great coffee!", now, Some(5))]
  {
    var r := NewReview(Some("Ada"), Some("Great coffee!"), Some("5"), now);
    AdaName();
    CoffeeText();
    RatingFive();
    assert r == Review("Ada", "Great coffee!", now, Some(5));
    assert Load(Missing) == [];
    assert AddReview([], r) == [r];
  }

  /** Helpers for the scenario: each field of the scenario's review. */
  lemma AdaName()
    ensures Trim(NameValue(Some("Ada"))) == "Ada"
  {
    assert NameValue(Some("Ada")) == "Ada";
    TrimUntouched("Ada");
  }

  lemma CoffeeText()
    ensures Trim(TextValue(Some("Great coffee!"))) == "Great coffee!"
  {
    assert TextValue(Some("Great coffee!")) == "Great coffee!";
    TrimUntouched("Great coffee!");
  }

  lemma RatingFive()
    ensures RatingValue(Some("5")) == Some(5)
  {
    assert Decimal(5) == "5";
    ParseIntDecimal(5);
  }

  /** A board holding one review shows it in the side panel and not the placeholder. */
  lemma SingleReviewShown(r: Review)
    ensures Render([r]).Listing? && |Render([r]).rows| == 1 && |Render([r]).side| == 1
  {
    RenderShowsRows([r]);
    RenderShowsSide([r]);
  }
}
