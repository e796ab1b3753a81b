/**
 The click handler on the contact section's links. A `mailto:` link has the
 address after the scheme copied to the clipboard; a `tel:` link has the
 number copied; both show a success toast and cancel the navigation. Any
 other link navigates as usual. The handler calls startsWith on the href
 attribute, so a link without one throws.
 */
module ContactLinks {
  import opened Js
  import Alerts

  const MailScheme := "mailto:"
  const TelScheme := "tel:"
  const EmailCopied := "Email copied to clipboard!"
  const PhoneCopied := "Phone number copied to clipboard!"

  datatype Outcome =
    | Copied(text: string, alert: Alerts.Alert)  // clipboard text, toast shown; default prevented
    | Ignored                                    // no action; the browser follows the link
    | Thrown                                     // TypeError: the href attribute is missing

  function OnClick(href: Attr): (o: Outcome)
    ensures o.Thrown? <==> href.Null?
    ensures href.Str? && StartsWith(href.value, MailScheme) ==>
              o.Copied? && o.alert == Alerts.ShowAlert(EmailCopied, Some("success")) && MailScheme + o.text == href.value
    ensures href.Str? && !StartsWith(href.value, MailScheme) && StartsWith(href.value, TelScheme) ==>
              o.Copied? && o.alert == Alerts.ShowAlert(PhoneCopied, Some("success")) && TelScheme + o.text == href.value
    ensures o.Ignored? <==> href.Str? && !StartsWith(href.value, MailScheme) && !StartsWith(href.value, TelScheme)
  {
    match href
    case Null => Thrown
    case Str(h) =>
      if StartsWith(h, MailScheme) then
        RemoveFirstOfPrefix(h, MailScheme);
        Copied(RemoveFirst(h, MailScheme), Alerts.ShowAlert(EmailCopied, Some("success")))
      else if StartsWith(h, TelScheme) then
        RemoveFirstOfPrefix(h, TelScheme);
        Copied(RemoveFirst(h, TelScheme), Alerts.ShowAlert(PhoneCopied, Some("success")))
      else
        Ignored
  }

  /** A mailto link copies exactly the address it was written with. */
  lemma MailtoRoundTrip(address: string)
    ensures OnClick(Str(MailScheme + address)).Copied?
    ensures OnClick(Str(MailScheme + address)).text == address
  {
  }

  /** A tel link copies exactly the number it was written with. */
  lemma TelRoundTrip(number: string)
    ensures OnClick(Str(TelScheme + number)).Copied?
    ensures OnClick(Str(TelScheme + number)).text == number
  {
    var h := TelScheme + number;
    assert h[..|TelScheme|] == TelScheme;
    assert h[0] == 't';
  }
}
