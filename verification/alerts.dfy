/**
 showAlert(message, type = 'info'): the toast element the page appends to
 the body. Its position, padding, shadow and slide-in animation are fixed
 presentation constants; what varies with the call is the class name, the
 text and the background colour.
 */
module Alerts {
  import opened Js

  const SuccessColor := "#10b981"
  const ErrorColor := "#ef4444"
  const InfoColor := "#3b82f6"

  /** The severity used when the caller omits the second argument. */
  const DefaultKind := "info"

  /** The prefix of the toast's class attribute; the severity follows it. */
  const ClassPrefix := "alert alert-"

  datatype Alert = Alert(className: string, text: string, background: string)

  /** The background colour for a severity: green for success, red for error, blue for anything else. */
  function Background(kind: string): (color: string)
    ensures color == SuccessColor <==> kind == "success"
    ensures color == ErrorColor <==> kind == "error"
    ensures color == InfoColor <==> kind != "success" && kind != "error"
  {
    if kind == "success" then SuccessColor
    else if kind == "error" then ErrorColor
    else InfoColor
  }

  /** The toast showAlert builds; `kind` is None when the argument is omitted. */
  function ShowAlert(message: string, kind: Option<string>): (a: Alert)
    ensures a.text == message
    ensures kind.None? ==> a.background == InfoColor && a.className == "alert alert-info"
    ensures kind.Some? ==> RemoveFirst(a.className, ClassPrefix) == kind.value
    ensures kind.Some? ==> a.background == Background(kind.value)
    ensures StartsWith(a.className, ClassPrefix)
  {
    var k := if kind.Some? then kind.value else DefaultKind;
    var a := Alert(ClassPrefix + k, message, Background(k));
    RemoveFirstOfConcat(ClassPrefix, k);
    assert a.className[..|ClassPrefix|] == ClassPrefix;
    assert kind.None? ==> a.background == InfoColor;
    a
  }

  /** The colour can be read back off the class name: two toasts with the same class have the same colour. */
  lemma ClassDeterminesColor(m1: string, k1: Option<string>, m2: string, k2: Option<string>)
    requires ShowAlert(m1, k1).className == ShowAlert(m2, k2).className
    ensures ShowAlert(m1, k1).background == ShowAlert(m2, k2).background
  {
    var a1, a2 := ShowAlert(m1, k1), ShowAlert(m2, k2);
    RemoveFirstOfPrefix(a1.className, ClassPrefix);
    assert a1.className[|ClassPrefix|..] == a2.className[|ClassPrefix|..];
  }
}
