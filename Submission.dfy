/** The inquiry submission (`handleFormSubmit`): the payload built from the
    raw field values, and the form's submit-button and reset behaviour around
    the request. The request itself is an entry in an outbox; its outcome
    comes back as a later call. */
module Submission {
  import opened Text
  import opened Validation
  import opened Products

  const NotSpecified := "Not specified"

  /** The label the submit button shows while a request is in flight. */
  const LoadingLabel := "<span class=\"loading\"></span> Sending..."

  /** The JSON object the script posts. */
  datatype Payload = Payload(
    businessName: string,
    contactPerson: string,
    email: string,
    phone: string,
    location: string,
    inquiryType: string,
    products: string,
    volume: string,
    message: string,
    timestamp: string)

  /** How a request ends: a parsed reply, with `success` the truthiness of
      its `success` member (so a string `"false"` counts as true), or an
      error (network failure, or a body that is not JSON). */
  datatype Outcome = Replied(success: bool) | TransportError

  /** A request in flight, with the button label captured before sending. */
  datatype Request = Request(payload: Payload, savedLabel: string)

  /** The `volume` the payload carries: the raw value, or `"Not specified"`
      when the raw value is empty. */
  function VolumeField(raw: string): (r: string)
    ensures r != ""
    ensures r == NotSpecified <==> raw == "" || raw == NotSpecified
    ensures raw != "" ==> r == raw
  {
    if raw == "" then NotSpecified else raw
  }

  /** The `formData` object: every text field copied raw (untrimmed, though
      validation looked at trimmed values), the products string, the volume
      with its default, and the timestamp. */
  function BuildPayload(f: Fields, b: Checkboxes, timestamp: string): (p: Payload)
    ensures p.businessName == f.businessName && p.contactPerson == f.contactPerson
    ensures p.email == f.email && p.phone == f.phone && p.location == f.location
    ensures p.inquiryType == f.inquiryType && p.message == f.message
    ensures p.timestamp == timestamp
    ensures p.volume != "" && (f.volume != "" ==> p.volume == f.volume)
    ensures f.volume == "" ==> p.volume == NotSpecified
    ensures p.products != "" && ParseProducts(p.products) == b
  {
    ProductsRoundTrip(b);
    ProductsNoneSelected(b);
    Payload(f.businessName, f.contactPerson, f.email, f.phone, f.location,
            f.inquiryType, ProductsField(b), VolumeField(f.volume), f.message, timestamp)
  }

  /** The payload loses nothing but the difference between an empty volume
      and a volume of exactly `"Not specified"`. */
  lemma PayloadDeterminesInput(f1: Fields, b1: Checkboxes, t1: string,
                               f2: Fields, b2: Checkboxes, t2: string)
    requires BuildPayload(f1, b1, t1) == BuildPayload(f2, b2, t2)
    ensures b1 == b2 && t1 == t2
    ensures f1.(volume := "") == f2.(volume := "")
    ensures f1.volume == f2.volume
      || {f1.volume, f2.volume} == {"", NotSpecified}
  {
    assert ParseProducts(BuildPayload(f1, b1, t1).products) == b1;
    assert ParseProducts(BuildPayload(f2, b2, t2).products) == b2;
  }

  /** The `formData` literal, with `products` from `getSelectedProducts`. */
  method GatherFormData(f: Fields, b: Checkboxes, timestamp: string) returns (p: Payload)
    ensures p == BuildPayload(f, b, timestamp)
  {
    var products := SelectedProducts(b);
    p := Payload(
      f.businessName, f.contactPerson, f.email, f.phone, f.location, f.inquiryType,
      products, VolumeField(f.volume), f.message, timestamp);
  }

  class ContactForm {
    var fields: Fields
    var boxes: Checkboxes
    /** The values `reset()` restores: those of the markup. */
    const defaultFields: Fields
    const defaultBoxes: Checkboxes
    /** The submit button's `innerHTML` and `disabled`. */
    var buttonLabel: string
    var buttonDisabled: bool
    /** Whether the success message carries the `show` class. */
    var successShown: bool
    /** Every payload handed to the network, oldest first. */
    var sent: seq<Payload>

    /** The form as the page loads it. */
    constructor (defaultFields: Fields, defaultBoxes: Checkboxes, buttonLabel: string)
      ensures this.defaultFields == defaultFields && this.defaultBoxes == defaultBoxes
      ensures fields == defaultFields && boxes == defaultBoxes
      ensures this.buttonLabel == buttonLabel && !buttonDisabled
      ensures !successShown && sent == []
    {
      this.defaultFields := defaultFields;
      this.defaultBoxes := defaultBoxes;
      fields := defaultFields;
      boxes := defaultBoxes;
      this.buttonLabel := buttonLabel;
      buttonDisabled := false;
      successShown := false;
      sent := [];
    }

    /** The synchronous part of `handleFormSubmit`. A form that fails
        validation changes nothing and sends nothing. Otherwise the payload is
        sent, the button's label is captured into the request, and the button
        is disabled and shows the loading label. */
    method Submit(timestamp: string) returns (request: Option<Request>)
      modifies this`buttonLabel, this`buttonDisabled, this`sent
      ensures request.Some? <==> ValidateForm(fields)
      ensures request.None? ==>
        buttonLabel == old(buttonLabel) && buttonDisabled == old(buttonDisabled) && sent == old(sent)
      ensures request.Some? ==>
        request.value == Request(BuildPayload(fields, boxes, timestamp), old(buttonLabel))
        && sent == old(sent) + [request.value.payload]
        && buttonLabel == LoadingLabel && buttonDisabled
    {
      if !ValidateForm(fields) {
        return None;
      }
      var payload := GatherFormData(fields, boxes, timestamp);
      sent := sent + [payload];
      var original := buttonLabel;
      buttonLabel := LoadingLabel;
      buttonDisabled := true;
      request := Some(Request(payload, original));
    }

    /** The completion of a request. On every path the button is enabled again
        with the label captured before sending; only a reply reporting
        `success` shows the success message and resets the form. */
    method Complete(request: Request, outcome: Outcome)
      modifies this`buttonLabel, this`buttonDisabled, this`successShown, this`fields, this`boxes
      ensures buttonLabel == request.savedLabel && !buttonDisabled
      ensures outcome == Replied(true) ==>
        successShown && fields == defaultFields && boxes == defaultBoxes
      ensures outcome != Replied(true) ==>
        successShown == old(successShown) && fields == old(fields) && boxes == old(boxes)
    {
      buttonLabel := request.savedLabel;
      buttonDisabled := false;
      match outcome
      case Replied(success) =>
        if success {
          successShown := true;
          fields := defaultFields;
          boxes := defaultBoxes;
        }
      case TransportError =>
    }

    /** The delayed hiding of the success message. */
    method HideSuccessMessage()
      modifies this`successShown
      ensures !successShown
    {
      successShown := false;
    }

    /** The delayed part of `handleProductInquiry`: ticks the box of a known
        product name. */
    method TickProduct(productName: string)
      modifies this`boxes
      ensures boxes == Prefill(old(boxes), productName)
    {
      if productName == TimothyLabel {
        boxes := boxes.(timothy := true);
      } else if productName == AlfalfaLabel {
        boxes := boxes.(alfalfa := true);
      }
    }
  }

  /** One submission from an idle form to its completion: the button ends
      enabled with exactly its label from before; the form is reset only
      when the request was sent and the reply reports success; a form that
      fails validation sends nothing. */
  method SubmitAndComplete(form: ContactForm, timestamp: string, outcome: Outcome)
    returns (sentOk: bool)
    requires !form.buttonDisabled
    modifies form
    ensures sentOk <==> ValidateForm(old(form.fields))
    ensures form.buttonLabel == old(form.buttonLabel) && !form.buttonDisabled
    ensures sentOk ==> form.sent == old(form.sent) + [BuildPayload(old(form.fields), old(form.boxes), timestamp)]
    ensures !sentOk ==> form.sent == old(form.sent)
    ensures sentOk && outcome == Replied(true) ==>
      form.fields == form.defaultFields && form.boxes == form.defaultBoxes && form.successShown
    ensures !(sentOk && outcome == Replied(true)) ==>
      form.fields == old(form.fields) && form.boxes == old(form.boxes)
      && form.successShown == old(form.successShown)
  {
    var request := form.Submit(timestamp);
    sentOk := request.Some?;
    if sentOk {
      form.Complete(request.value, outcome);
    }
  }
}
