/** The texts behind the string table: writeString cuts a string to 255 characters, so the other side
    has the beginning of a longer one. */
module StringTableTexts {
  import opened Wrappers
  import opened StringTable
  import opened StringTableSystem
  import opened SharedPrefixStrings
  import C = Channel

  const MAX_STRING := 255

  function TextOf(text: nat -> seq<nat>, s: Option<nat>): Option<seq<nat>> {
    if s.Some? then Some(Cut(text(s.value), MAX_STRING)) else None
  }

  /** What readStringTableEntry does with the text that a reference brings. */
  ghost function ReadTextRef(text: nat -> seq<nat>, remote: seq<Option<seq<nat>>>, r: Ref): seq<Option<seq<nat>>>
    requires r.index < |remote|
  {
    if r.text.Some? then remote[r.index := TextOf(text, r.text)] else remote
  }

  ghost function ReadTexts(text: nat -> seq<nat>, remote: seq<Option<seq<nat>>>, refs: seq<Ref>): seq<Option<seq<nat>>>
    requires |remote| == ENTRIES && InTable(refs)
    decreases |refs|
  {
    if refs == [] then []
    else
      var after := ReadTextRef(text, remote, refs[0]);
      [after[refs[0].index]] + ReadTexts(text, after, refs[1..])
  }

  ghost function TextsOf(text: nat -> seq<nat>, strings: seq<Option<nat>>): seq<Option<seq<nat>>> {
    seq(|strings|, i requires 0 <= i < |strings| => TextOf(text, strings[i]))
  }

  /** The texts read are those of the strings that the references resolve to. */
  lemma {:induction false} TextsFollow(text: nat -> seq<nat>, remote: seq<Option<nat>>, refs: seq<Ref>)
    requires |remote| == ENTRIES && InTable(refs)
    ensures ReadTexts(text, TextsOf(text, remote), refs) == TextsOf(text, Resolved(remote, refs))
    decreases |refs|
  {
    if refs != [] {
      assert ReadTextRef(text, TextsOf(text, remote), refs[0]) == TextsOf(text, ReadRef(remote, refs[0]));
      TextsFollow(text, ReadRef(remote, refs[0]), refs[1..]);
    }
  }

  /** In every run without a rebinding, each reference of a packet that can be read gives the text of the
      string written, cut to 255 characters: the text itself exactly if it is no longer than that. */
  lemma TextAgreement(text: nat -> seq<nat>, run: seq<Action>, i: nat, k: nat)
    requires Possible(Start(), run) && C.CanRead(After(Start(), run).c, i)
    requires i < |After(Start(), run).c.sent| && k < |After(Start(), run).c.sent[i]|
    ensures var y := After(Start(), run);
      var read := ReadTexts(text, TextsOf(text, y.remote), y.c.sent[i]);
      var meant := text(y.c.sent[i][k].meant);
      && |read| == |y.c.sent[i]| && read[k] == Some(Cut(meant, MAX_STRING))
      && (read[k] == Some(meant) <==> |meant| <= MAX_STRING)
  {
    Agreement(run);
    var y := After(Start(), run);
    hide After;
    assert !Misread(y, i);
    TextsFollow(text, y.remote, y.c.sent[i]);
    hide ReadTexts;
    hide Resolved;
    var meant := text(y.c.sent[i][k].meant);
    assert meant[..|meant|] == meant;
  }
}
