/** An independent reader for the escape sequences the formatters build:
    a Select Graphic Rendition control function (section 8.3.117 of
    ECMA-48) written as a Control Sequence Introducer `ESC [`, parameters
    separated by `;`, and the final byte `m`. */
module Sgr {
  import opened Results
  import opened Text

  /** Control Sequence Introducer, ESC followed by `[`. */
  const Introducer: string := "\U{1b}["

  /** The parameter list of one complete SGR control sequence, or None when
      `s` is not one. */
  function Parameters(s: string): Option<seq<string>>
  {
    if |s| >= 3 && s[..2] == Introducer && s[|s| - 1] == 'm'
    then Some(Split(s[2..|s| - 1], {';'}))
    else None
  }

  /** Reading back a sequence built from `;`-free parameters gives the parameters. */
  lemma ParametersOfBuilt(ps: seq<string>)
    requires |ps| >= 1
    ensures (forall i :: 0 <= i < |ps| ==> NoneOf(ps[i], {';'})) ==>
              Parameters(Introducer + Join(ps, ";") + "m") == Some(ps)
  {
    var s := Introducer + Join(ps, ";") + "m";
    assert s[..2] == Introducer;
    assert s[2..|s| - 1] == Join(ps, ";");
    if forall i :: 0 <= i < |ps| ==> NoneOf(ps[i], {';'}) {
      SplitJoin(ps, ';');
    }
  }
}
