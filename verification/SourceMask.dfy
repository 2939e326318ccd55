/** Which characters of a source lie outside its strings. */
module SourceMask {

  /** Where the scan stands: outside, in a string, or part of the way through three quotes. */
  datatype Mode = Normal | Str(escaped: bool) | Multi(escaped: bool) | Opening(left: nat) | Closing(left: nat)

  predicate Triple(s: string) {
    |s| >= 3 && s[0] == '\"' && s[1] == '\"' && s[2] == '\"'
  }

  /** The mode after the first character of `s`. */
  function Step(s: string, mode: Mode): Mode
    requires s != []
  {
    match mode
    case Normal => if Triple(s) then Opening(2) else if s[0] == '\"' then Str(false) else Normal
    case Opening(left) => if left <= 1 then Multi(false) else Opening(left - 1)
    case Closing(left) => if left <= 1 then Normal else Closing(left - 1)
    case Str(escaped) =>
      if escaped then Str(false) else if s[0] == '\\' then Str(true) else if s[0] == '\"' then Normal else mode
    case Multi(escaped) =>
      if escaped then Multi(false) else if s[0] == '\\' then Multi(true) else if Triple(s) then Closing(2) else mode
  }

  /** The mode before the character at `i`. */
  function ModeAt(text: string, i: nat): Mode
    requires i <= |text|
  {
    if i == 0 then Normal else Step(text[i - 1..], ModeAt(text, i - 1))
  }

  /** A character is outside the strings when the scan is, and it does not open one. */
  predicate Outside(text: string, i: nat)
    requires i < |text|
  {
    ModeAt(text, i) == Normal && text[i] != '\"'
  }

  predicate IsMask(text: string, mask: seq<bool>) {
    |mask| == |text| && forall i | 0 <= i < |text| :: mask[i] == Outside(text, i)
  }

  /** Three quotes, at the start or the end of a multi-line string. */
  lemma ThreeSteps(text: string, index: nat)
    requires index < |text| && Triple(text[index..]) && ModeAt(text, index) in {Normal, Multi(false)}
    ensures ModeAt(text, index + 3) == if ModeAt(text, index) == Normal then Multi(false) else Normal
    ensures forall i | index <= i < index + 3 :: !Outside(text, i)
  {
    assert ModeAt(text, index + 1) == Step(text[index..], ModeAt(text, index));
    assert ModeAt(text, index + 2) == Step(text[index + 1..], ModeAt(text, index + 1));
    assert text[index] == text[index..][0];
  }

  datatype Scan = InCode | InString | InMultiline

  function ModeOf(scan: Scan, escaped: bool): Mode {
    match scan
    case InCode => Normal
    case InString => Str(escaped)
    case InMultiline => Multi(escaped)
  }

  /** Mark the characters outside strings, and tell whether a string is left open. */
  method OutsideStringMask(text: string) returns (outside: array<bool>, unclosed: bool)
    ensures fresh(outside)
    ensures IsMask(text, outside[..])
    ensures unclosed <==> ModeAt(text, |text|) != Normal
  {
    outside := new bool[|text|](_ => true);
    var index, scan, escaped := 0, InCode, false;
    while index < |text|
      invariant index <= |text| && ModeAt(text, index) == ModeOf(scan, escaped)
      invariant scan == InCode ==> !escaped
      invariant forall i | 0 <= i < index :: outside[i] == Outside(text, i)
      invariant forall i | index <= i < |text| :: outside[i]
      decreases |text| - index
    {
      var triple := index + 3 <= |text| && text[index..index + 3] == "\"\"\"";
      assert triple <==> Triple(text[index..]);
      if scan == InCode {
        if triple {
          ThreeSteps(text, index);
          outside[index], outside[index + 1], outside[index + 2] := false, false, false;
          scan := InMultiline;
          index := index + 3;
        } else {
          if text[index] == '\"' {
            outside[index] := false;
            scan := InString;
          }
          index := index + 1;
        }
      } else {
        outside[index] := false;
        if escaped {
          escaped := false;
          index := index + 1;
        } else if text[index] == '\\' {
          escaped := true;
          index := index + 1;
        } else if scan == InString && text[index] == '\"' {
          scan := InCode;
          index := index + 1;
        } else if scan == InMultiline && triple {
          ThreeSteps(text, index);
          outside[index + 1], outside[index + 2] := false, false;
          scan := InCode;
          index := index + 3;
        } else {
          index := index + 1;
        }
      }
    }
    unclosed := scan != InCode;
  }
}
