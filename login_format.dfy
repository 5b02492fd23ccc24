/**
 * The login plaintext both processors receive: `atm_id:user_id:password`,
 * taken apart with Python's `split(":")` and accepted only when that yields
 * exactly three pieces.
 */
module LoginFormat {
  import opened Maybe
  import opened Text

  datatype Credentials = Credentials(atmId: string, userId: string, password: string)

  /** The plaintext a terminal builds for the given credentials. */
  function Render(cr: Credentials): string
  {
    cr.atmId + ":" + cr.userId + ":" + cr.password
  }

  predicate ColonFree(cr: Credentials)
  {
    ':' !in cr.atmId && ':' !in cr.userId && ':' !in cr.password
  }

  /**
   * `atm_id, user_id, password = plaintext.split(":")`; `None` where the
   * unpacking raises ValueError because the piece count is not three.
   */
  function ParseCredentials(plain: string): (r: Option<Credentials>)
    ensures r.Some? <==> CountChar(plain, ':') == 2
    ensures r.Some? ==> ColonFree(r.value) && Render(r.value) == plain
  {
    var fields := Split(plain, ':');
    if |fields| == 3 then
      var cr := Credentials(fields[0], fields[1], fields[2]);
      SplitThenJoin(plain, ':');
      assert fields[1..][1..] == [fields[2]];
      assert Join(fields[1..], ':') == fields[1] + ":" + fields[2];
      assert Join(fields, ':') == fields[0] + ":" + (fields[1] + ":" + fields[2]);
      Some(cr)
    else None
  }

  /** Colon-free credentials survive the trip through the plaintext. */
  lemma ParseRendered(cr: Credentials)
    requires ColonFree(cr)
    ensures ParseCredentials(Render(cr)) == Some(cr)
  {
    var fields := [cr.atmId, cr.userId, cr.password];
    assert fields[1..][1..] == [cr.password];
    assert Join(fields[1..], ':') == cr.userId + ":" + cr.password;
    assert Join(fields, ':') == Render(cr);
    JoinThenSplit(fields, ':');
  }
}
