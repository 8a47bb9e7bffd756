/** The three product checkboxes of the inquiry form: the `products` string
    the payload carries (`getSelectedProducts`), its inverse, and the
    ticking done by the product call-to-action (`handleProductInquiry`). */
module Products {
  import opened Text

  /** The `checked` state of the `timothy`, `alfalfa` and `both` boxes. */
  datatype Checkboxes = Checkboxes(timothy: bool, alfalfa: bool, both: bool)

  datatype Box = Timothy | Alfalfa | Both

  const TimothyLabel := "Timothy Hay"
  const AlfalfaLabel := "Alfalfa Hay"
  const BothLabel := "Both Products"
  const NoneSelected := "None selected"
  const Separator := ", "

  /** The boxes in the order the script inspects them. */
  const Catalogue: seq<Box> := [Timothy, Alfalfa, Both]

  function Ticked(b: Checkboxes, box: Box): bool {
    match box
    case Timothy => b.timothy
    case Alfalfa => b.alfalfa
    case Both => b.both
  }

  /** The label a ticked box contributes to the list. */
  function Label(box: Box): (r: string)
    ensures r != "" && ',' !in r
  {
    match box
    case Timothy => TimothyLabel
    case Alfalfa => AlfalfaLabel
    case Both => BothLabel
  }

  /** The labels of the ticked boxes among `boxes`, in their order. */
  function Selected(b: Checkboxes, boxes: seq<Box>): seq<string> {
    if boxes == [] then []
    else (if Ticked(b, boxes[0]) then [Label(boxes[0])] else []) + Selected(b, boxes[1..])
  }

  /** The `products` field: the ticked labels joined by `", "`, or
      `"None selected"` when the join is empty. */
  function ProductsField(b: Checkboxes): string {
    var joined := Join(Selected(b, Catalogue), Separator);
    if joined == "" then NoneSelected else joined
  }

  /** `getSelectedProducts`: pushes the label of each ticked box, in the
      fixed order, then joins the list, falling back to `"None selected"`. */
  method SelectedProducts(b: Checkboxes) returns (r: string)
    ensures r == ProductsField(b)
  {
    var products: seq<string> := [];
    if b.timothy {
      products := products + [TimothyLabel];
    }
    if b.alfalfa {
      products := products + [AlfalfaLabel];
    }
    if b.both {
      products := products + [BothLabel];
    }
    SelectedCatalogue(b);
    assert products == Selected(b, Catalogue);
    r := Join(products, Separator);
    if r == "" {
      r := NoneSelected;
    }
  }

  /** Reads a `products` string back as checkbox state, as a receiver of
      the payload would: split on `", "` and look for each label. */
  function ParseProducts(s: string): Checkboxes {
    var items := Split(s, Separator);
    Checkboxes(TimothyLabel in items, AlfalfaLabel in items, BothLabel in items)
  }

  // ---------------------------------------------------------------------
  // Properties of the selection

  /** The catalogue filter written out box by box. */
  lemma SelectedCatalogue(b: Checkboxes)
    ensures Selected(b, Catalogue) ==
      (if b.timothy then [TimothyLabel] else [])
      + (if b.alfalfa then [AlfalfaLabel] else [])
      + (if b.both then [BothLabel] else [])
  {
    var c1, c2, c3 := Catalogue[1..], Catalogue[2..], Catalogue[3..];
    assert c1 == [Alfalfa, Both] && c1[1..] == c2 == [Both] && c2[1..] == c3 == [];
    assert Selected(b, c3) == [];
    assert Selected(b, c2) == (if b.both then [BothLabel] else []) + Selected(b, c3);
    assert Selected(b, c1) == (if b.alfalfa then [AlfalfaLabel] else []) + Selected(b, c2);
    assert Selected(b, Catalogue) == (if b.timothy then [TimothyLabel] else []) + Selected(b, c1);
  }

  /** A label is listed exactly when its box is among `boxes` and ticked;
      no label contains a comma; the list is no longer than `boxes`. */
  lemma {:induction false} SelectedMembers(b: Checkboxes, boxes: seq<Box>)
    ensures |Selected(b, boxes)| <= |boxes|
    ensures forall i :: 0 <= i < |Selected(b, boxes)| ==>
      Selected(b, boxes)[i] != "" && ',' !in Selected(b, boxes)[i]
    ensures forall box :: Label(box) in Selected(b, boxes) <==> box in boxes && Ticked(b, box)
  {
    if boxes != [] {
      SelectedMembers(b, boxes[1..]);
      var head := if Ticked(b, boxes[0]) then [Label(boxes[0])] else [];
      assert Selected(b, boxes) == head + Selected(b, boxes[1..]);
      assert boxes == [boxes[0]] + boxes[1..];
      forall box ensures Label(box) in Selected(b, boxes) <==> box in boxes && Ticked(b, box) {
        assert Label(box) in head <==> box == boxes[0] && Ticked(b, box);
      }
    }
  }

  /** Each label appears at most once, in the catalogue's order: the list
      holds no duplicates. */
  lemma {:induction false} SelectedDistinct(b: Checkboxes, boxes: seq<Box>)
    requires forall i, j :: 0 <= i < j < |boxes| ==> boxes[i] != boxes[j]
    ensures forall i, j :: 0 <= i < j < |Selected(b, boxes)| ==>
      Selected(b, boxes)[i] != Selected(b, boxes)[j]
  {
    if boxes != [] {
      SelectedDistinct(b, boxes[1..]);
      SelectedMembers(b, boxes[1..]);
      var rest := Selected(b, boxes[1..]);
      assert boxes[0] !in boxes[1..];
      assert Label(boxes[0]) !in rest;
    }
  }

  /** The list `getSelectedProducts` builds holds no label twice. */
  lemma ProductsListedOnce(b: Checkboxes)
    ensures forall i, j :: 0 <= i < j < |Selected(b, Catalogue)| ==>
      Selected(b, Catalogue)[i] != Selected(b, Catalogue)[j]
  {
    SelectedDistinct(b, Catalogue);
  }

  /** A non-empty join starts with the first label, so it is not empty. */
  lemma JoinNotEmpty(items: seq<string>, sep: string)
    requires |items| > 0 && items[0] != ""
    ensures Join(items, sep) != ""
  {
    if |items| > 1 {
      assert Join(items, sep)[0] == items[0][0];
    }
  }

  /** The `products` string is lossless: reading it back gives the checkbox
      state it was built from. */
  lemma ProductsRoundTrip(b: Checkboxes)
    ensures ParseProducts(ProductsField(b)) == b
  {
    var sel := Selected(b, Catalogue);
    SelectedMembers(b, Catalogue);
    var items := Split(ProductsField(b), Separator);
    if sel == [] {
      assert Join(sel, Separator) == "";
      FindAbsent(NoneSelected, Separator);
      assert items == [NoneSelected];
      assert !b.timothy && !b.alfalfa && !b.both by {
        assert Label(Timothy) !in sel && Label(Alfalfa) !in sel && Label(Both) !in sel;
      }
    } else {
      JoinNotEmpty(sel, Separator);
      SplitJoin(sel, Separator);
      assert items == sel;
      assert Label(Timothy) in sel <==> b.timothy;
      assert Label(Alfalfa) in sel <==> b.alfalfa;
      assert Label(Both) in sel <==> b.both;
    }
  }

  /** The `products` field is never empty, and it is `"None selected"`
      exactly when no box is ticked. */
  lemma ProductsNoneSelected(b: Checkboxes)
    ensures ProductsField(b) != ""
    ensures ProductsField(b) == NoneSelected <==> !b.timothy && !b.alfalfa && !b.both
  {
    ProductsRoundTrip(b);
    FindAbsent(NoneSelected, Separator);
    assert Split(NoneSelected, Separator) == [NoneSelected];
    assert ParseProducts(NoneSelected) == Checkboxes(false, false, false);
    SelectedCatalogue(b);
  }

  /** Different checkbox states give different `products` strings. */
  lemma ProductsInjective(b1: Checkboxes, b2: Checkboxes)
    requires ProductsField(b1) == ProductsField(b2)
    ensures b1 == b2
  {
    ProductsRoundTrip(b1);
    ProductsRoundTrip(b2);
  }

  lemma ProductsExamples()
    ensures ProductsField(Checkboxes(false, false, false)) == "None selected"
    ensures ProductsField(Checkboxes(true, false, false)) == "Timothy Hay"
    ensures ProductsField(Checkboxes(true, true, false)) == "Timothy Hay, Alfalfa Hay"
  {
    SelectedCatalogue(Checkboxes(true, true, false));
    assert Selected(Checkboxes(true, true, false), Catalogue) == [TimothyLabel, AlfalfaLabel];
    assert Join([TimothyLabel, AlfalfaLabel], Separator) == TimothyLabel + Separator + AlfalfaLabel;
    assert TimothyLabel + Separator + AlfalfaLabel == "Timothy Hay, Alfalfa Hay" != "";
  }

  // ---------------------------------------------------------------------
  // The product call-to-action

  /** The ticking `handleProductInquiry` performs: `timothy` for exactly
      `"Timothy Hay"`, `alfalfa` for exactly `"Alfalfa Hay"`. It never ticks
      `both`, never unticks a box, and leaves every box alone for any other
      name. */
  function Prefill(b: Checkboxes, productName: string): (r: Checkboxes)
    ensures productName == TimothyLabel ==> r.timothy
    ensures productName == AlfalfaLabel ==> r.alfalfa
    ensures r.both == b.both
    ensures (b.timothy ==> r.timothy) && (b.alfalfa ==> r.alfalfa)
    ensures r.timothy != b.timothy ==> productName == TimothyLabel
    ensures r.alfalfa != b.alfalfa ==> productName == AlfalfaLabel
    ensures productName != TimothyLabel && productName != AlfalfaLabel ==> r == b
  {
    if productName == TimothyLabel then b.(timothy := true)
    else if productName == AlfalfaLabel then b.(alfalfa := true)
    else b
  }

  /** After the call-to-action for a known product, a submitted inquiry
      lists that product. */
  lemma PrefilledProductIsListed(b: Checkboxes, productName: string)
    requires productName == TimothyLabel || productName == AlfalfaLabel
    ensures productName in Split(ProductsField(Prefill(b, productName)), Separator)
  {
    ProductsRoundTrip(Prefill(b, productName));
  }
}
