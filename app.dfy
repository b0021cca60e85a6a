/**
 * One run of the page script: choose the parser from the uploaded file's
 * name, build the payload, send it when the button was pressed, and show
 * the receiver section. The page is re-run on every interaction while the
 * session (and its slot) persists between runs.
 */
module App {
  import opened Wrappers
  import opened Rows
  import opened Records
  import opened Readers
  import opened Receiver

  /**
   * The uploaded file: its name, and the dataset each parser decodes from
   * its bytes.
   */
  datatype Upload<V> = Upload(name: string, parse: Reader -> Dataset<V>)

  /** What a run that completes puts on the page below the configuration. */
  datatype Screen<V, J> = Screen(prepared: Option<Payload<V>>, notice: Option<Notice>, view: View<V, J>)

  /**
   * One run. With no file only the receiver section is shown. With a file,
   * an error raised while building the payload ends the run: nothing is
   * sent and the slot is untouched. Otherwise the payload is shown, sent
   * if the button was pressed, and the receiver section shows the slot.
   */
  method Rerun<V, J>(session: Session<V, J>, upload: Option<Upload<V>>, simulate: bool, pressed: bool, exchange: Exchange<J>)
    returns (r: Result<Screen<V, J>, Error>)
    modifies session
    ensures upload.None? ==>
      session.slot == old(session.slot) && r == Success(Screen(None, None, session.Shown()))
    ensures upload.Some? ==>
      var ds := upload.value.parse(SelectReader(upload.value.name));
      match Transform(ds)
      case Failure(e) =>
        r == Failure(e) && session.slot == old(session.slot)
      case Success(payload) =>
        var p := Press(simulate, payload, exchange);
        && session.slot == (if pressed then NextSlot(old(session.slot), p) else old(session.slot))
        && r == Success(Screen(Some(payload), if pressed then Some(NoticeOf(p)) else None, session.Shown()))
  {
    if upload.None? {
      r := Success(Screen(None, None, session.Shown()));
      return;
    }
    var reader := SelectReader(upload.value.name);
    var ds := upload.value.parse(reader);
    var built := BuildPayload(ds);
    if built.Failure? {
      return Failure(built.error);
    }
    var notice: Option<Notice> := None;
    if pressed {
      var n := session.Send(Press(simulate, built.value, exchange));
      notice := Some(n);
    }
    r := Success(Screen(Some(built.value), notice, session.Shown()));
  }
}
