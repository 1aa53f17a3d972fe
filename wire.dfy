/** The bytes on the wire for the commands `managePorts` issues: how `comm` turns each
    command's parameters into words. */
module ManagerWire {
  import opened Codec
  import Api
  import opened MikrotikManager

  /** What `comm` writes for the listing: every parameter, the `?comment` query included,
      goes out as an attribute word beginning with `=`, so no word of it begins with `?`. */
  lemma PrintWireWords(tag: Bytes)
    ensures var c := PrintCommand(tag);
      Api.CommandWords(c.word, c.params) == [PrintWord, "=?comment=" + tag, "=.proplist=.id", Api.Tag]
    ensures var c := PrintCommand(tag); var ws := Api.CommandWords(c.word, c.params);
      forall k :: 0 <= k < |ws| ==> |ws[k]| > 0 && ws[k][0] != '?'
  {
    var c := PrintCommand(tag);
    var ws := Api.CommandWords(c.word, c.params);
    assert |ws| == 4 && ws[0] == PrintWord && ws[3] == Api.Tag;
    assert ws[1] == "=" + "?comment" + "=" + tag;
    assert "=" + "?comment" + "=" == "=?comment=";
    assert ws[2] == "=" + ".proplist" + "=" + ".id";
    assert "=" + ".proplist" + "=" + ".id" == "=.proplist=.id";
    assert ws == [PrintWord, "=?comment=" + tag, "=.proplist=.id", Api.Tag];
  }
}
