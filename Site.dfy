/** The product call-to-action (`handleProductInquiry`): the contact page is
    shown at once, and the box of the named product is ticked in a later
    step (the script defers it by a timer). */
module Site {
  import opened Products
  import opened Pages
  import opened Submission

  const ContactPage := "contact"

  /** Shows the `contact` page, then ticks the box for `productName` when it
      names one of the two hays; every other field and box is left alone. */
  method HandleProductInquiry(view: PageView, form: ContactForm, productName: string)
    requires view.Valid()
    modifies view.pageActive, view.linkActive, view`menuOpen, form`boxes
    ensures view.Valid()
    ensures view.pageActive[..] == ShownPages(view.ids, ContactPage)
    ensures forall k :: 0 <= k < view.linkActive.Length ==> !view.linkActive[k]
    ensures !view.menuOpen
    ensures form.boxes == Prefill(old(form.boxes), productName)
  {
    view.ShowPage(ContactPage);
    form.TickProduct(productName);
  }
}
