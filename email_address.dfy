/**
 * The To-address check of the email app (email-app/src/EmailApp.jsx:21): the
 * anchored pattern
 *   ^[a-zA-Z0-9_'^&/+-]+(\.[a-zA-Z0-9_'^&/+-]+)*@([a-zA-Z0-9-]+\.)+[a-zA-Z]{2,}$
 * recognised by a hand-rolled scanner, and proved equal to a description in
 * terms of splitting on '@' and on '.'.
 */
module EmailAddress {
  import opened JsText

  predicate IsAsciiLetter(c: char) { 'a' <= c <= 'z' || 'A' <= c <= 'Z' }

  predicate IsAsciiDigit(c: char) { '0' <= c <= '9' }

  /** The class `[a-zA-Z0-9_'^&/+-]` of the local part. */
  predicate IsLocalChar(c: char) {
    IsAsciiLetter(c) || IsAsciiDigit(c)
    || c == '_' || c == '\'' || c == '^' || c == '&' || c == '/' || c == '+' || c == '-'
  }

  /** The class `[a-zA-Z0-9-]` of the domain labels. */
  predicate IsLabelChar(c: char) { IsAsciiLetter(c) || IsAsciiDigit(c) || c == '-' }

  // ---------------------------------------------------------------- scanner

  /**
   * Where the domain scanner stands: before the first label, inside a label
   * that cannot end the address, just after a dot, or inside a run of one
   * or of at least two letters that began after a dot.
   */
  datatype HostState = LabelStart | InLabel | AfterDot | OneLetter | Letters

  /** The state after one more label character. */
  function HostNext(st: HostState, c: char): HostState {
    if !IsAsciiLetter(c) then InLabel
    else match st
      case LabelStart => InLabel
      case InLabel => InLabel
      case AfterDot => OneLetter
      case OneLetter => Letters
      case Letters => Letters
  }

  /**
   * Scans what follows the '@': `([a-zA-Z0-9-]+\.)+[a-zA-Z]{2,}$`. What it
   * accepts holds no '@' and, unless empty, ends in a letter.
   */
  function ScanHost(s: string, st: HostState): (r: bool)
    ensures r ==> '@' !in s
    ensures r && s != [] ==> IsAsciiLetter(s[|s| - 1])
    decreases |s|
  {
    if s == [] then st == Letters
    else if s[0] == '.' then st != LabelStart && st != AfterDot && ScanHost(s[1..], AfterDot)
    else if IsLabelChar(s[0]) then ScanHost(s[1..], HostNext(st, s[0]))
    else false
  }

  /**
   * Scans the local part up to the '@'; `inAtom` says the current dot-atom is
   * non-empty. What it accepts holds an '@' and ends in a letter.
   */
  function ScanLocal(s: string, inAtom: bool): (r: bool)
    ensures r ==> '@' in s && IsAsciiLetter(s[|s| - 1])
    decreases |s|
  {
    if s == [] then false
    else if s[0] == '@' then inAtom && ScanHost(s[1..], LabelStart)
    else if s[0] == '.' then inAtom && ScanLocal(s[1..], false)
    else IsLocalChar(s[0]) && ScanLocal(s[1..], true)
  }

  /**
   * `isValidEmail(value)`: holds exactly of the strings the split-on-'@' /
   * split-on-'.' description admits.
   */
  function IsValidEmail(s: string): (r: bool)
    ensures r <==> EmailShape(s)
  {
    ScanLocalCorrect(s, []);
    PrependFacts([], [], Split(Split(s, '@')[0], '.'));
    ScanLocal(s, false)
  }

  // --------------------------------------------------------- characterisation

  predicate IsAtom(a: string) {
    a != [] && forall i :: 0 <= i < |a| ==> IsLocalChar(a[i])
  }

  predicate IsLabel(l: string) {
    l != [] && forall i :: 0 <= i < |l| ==> IsLabelChar(l[i])
  }

  predicate IsTopLevel(t: string) {
    |t| >= 2 && forall i :: 0 <= i < |t| ==> IsAsciiLetter(t[i])
  }

  predicate AllAtoms(pieces: seq<string>) {
    forall k :: 0 <= k < |pieces| ==> IsAtom(pieces[k])
  }

  /** Split on '.', the local part is one or more non-empty atoms. */
  predicate LocalPartOk(l: string) {
    AllAtoms(Split(l, '.'))
  }

  /**
   * `pieces` is a run of labels ended by a top-level name; at least two
   * pieces in all unless `dotted`, which says a label and its dot were
   * already read.
   */
  predicate HostPieces(dotted: bool, pieces: seq<string>) {
    |pieces| >= (if dotted then 1 else 2) &&
    (forall k :: 0 <= k < |pieces| - 1 ==> IsLabel(pieces[k])) &&
    IsTopLevel(pieces[|pieces| - 1])
  }

  /** Split on '.', the domain is at least two pieces: labels, then a top-level name of two or more letters. */
  predicate DomainOk(d: string) {
    HostPieces(false, Split(d, '.'))
  }

  /** Exactly one '@', with a well-formed local part before it and a well-formed domain after it. */
  predicate EmailShape(s: string) {
    var parts := Split(s, '@');
    |parts| == 2 && LocalPartOk(parts[0]) && DomainOk(parts[1])
  }

  // ------------------------------------------------------------------ proofs

  predicate AllLetters(w: string) {
    forall i :: 0 <= i < |w| ==> IsAsciiLetter(w[i])
  }

  /** What the domain scanner has read of the current piece (`w`), and whether a dot came before it. */
  predicate HostAbs(st: HostState, dotted: bool, w: string) {
    match st
    case LabelStart => !dotted && w == []
    case InLabel => IsLabel(w) && (dotted ==> !AllLetters(w))
    case AfterDot => dotted && w == []
    case OneLetter => dotted && |w| == 1 && AllLetters(w)
    case Letters => dotted && |w| >= 2 && AllLetters(w)
  }

  lemma HostNextAbs(st: HostState, dotted: bool, w: string, c: char)
    requires HostAbs(st, dotted, w) && IsLabelChar(c)
    ensures HostAbs(HostNext(st, c), dotted, w + [c])
  {
    var w' := w + [c];
    assert w'[|w|] == c;
    assert forall i :: 0 <= i < |w| ==> w'[i] == w[i];
    if st == InLabel && dotted {
      var i :| 0 <= i < |w| && !IsAsciiLetter(w[i]);
      assert !IsAsciiLetter(w'[i]);
    }
  }

  lemma HostPiecesCons(dotted: bool, w: string, rest: seq<string>)
    requires |rest| >= 1
    ensures HostPieces(dotted, [w] + rest) <==> IsLabel(w) && HostPieces(true, rest)
  {
    var p := [w] + rest;
    assert p[0] == w;
    assert forall k :: 0 <= k < |rest| ==> p[k + 1] == rest[k];
    if HostPieces(dotted, p) {
      forall k | 0 <= k < |rest| - 1 ensures IsLabel(rest[k]) {
        assert p[k + 1] == rest[k];
      }
    }
  }

  lemma HostPiecesBadChar(dotted: bool, w: string, rest: seq<string>, i: nat)
    requires |rest| >= 1 && i < |w| && !IsLabelChar(w[i])
    ensures !HostPieces(dotted, Prepend(w, rest))
  {
    var p := Prepend(w, rest);
    assert p[0][i] == w[i];
  }

  /** The domain scanner, started in any state, accepts exactly the domains its state stands for. */
  lemma {:induction false} ScanHostCorrect(s: string, st: HostState, dotted: bool, w: string)
    requires HostAbs(st, dotted, w)
    ensures ScanHost(s, st) == HostPieces(dotted, Prepend(w, Split(s, '.')))
    decreases |s|
  {
    if s == [] {
      PrependFacts(w, [], [[]]);
    } else {
      var c, t := s[0], s[1..];
      var rest := Split(t, '.');
      PrependFacts(w, [c], rest);
      if c == '.' {
        assert Split(s, '.') == [[]] + rest;
        HostPiecesCons(dotted, w, rest);
        ScanHostCorrect(t, AfterDot, true, []);
        assert IsLabel(w) <==> st != LabelStart && st != AfterDot;
      } else {
        assert Split(s, '.') == Prepend([c], rest);
        if IsLabelChar(c) {
          HostNextAbs(st, dotted, w, c);
          ScanHostCorrect(t, HostNext(st, c), dotted, w + [c]);
        } else {
          assert (w + [c])[|w|] == c;
          HostPiecesBadChar(dotted, w + [c], rest, |w|);
        }
      }
    }
  }

  lemma DomainScanned(d: string)
    ensures ScanHost(d, LabelStart) == DomainOk(d)
  {
    ScanHostCorrect(d, LabelStart, false, []);
    PrependFacts([], [], Split(d, '.'));
  }

  lemma AllAtomsCons(w: string, rest: seq<string>)
    ensures AllAtoms([w] + rest) <==> IsAtom(w) && AllAtoms(rest)
  {
    var p := [w] + rest;
    assert p[0] == w;
    assert forall k :: 0 <= k < |rest| ==> p[k + 1] == rest[k];
  }

  /** The whole scanner, started inside an atom `w`, accepts exactly the addresses the split description admits. */
  lemma {:induction false} ScanLocalCorrect(s: string, w: string)
    requires w == [] || IsAtom(w)
    ensures ScanLocal(s, w != []) ==
      (var parts := Split(s, '@');
       |parts| == 2 && AllAtoms(Prepend(w, Split(parts[0], '.'))) && DomainOk(parts[1]))
    decreases |s|
  {
    if s != [] {
      var c, t := s[0], s[1..];
      var ps := Split(t, '@');
      if c == '@' {
        var parts := Split(s, '@');
        assert parts == [[]] + ps;
        PrependFacts(w, [], [[]]);
        AllAtomsCons(w, []);
        DomainScanned(t);
        SplitSingle(t, '@');
      } else {
        var parts := Split(s, '@');
        assert parts == Prepend([c], ps);
        var local := parts[0];
        assert local == [c] + ps[0];
        assert local[0] == c && local[1..] == ps[0];
        var pieces := Split(ps[0], '.');
        PrependFacts(w, [c], pieces);
        if c == '.' {
          assert Split(local, '.') == [[]] + pieces;
          AllAtomsCons(w, pieces);
          ScanLocalCorrect(t, []);
        } else {
          assert Split(local, '.') == Prepend([c], pieces);
          var p := Prepend(w + [c], pieces);
          assert p[0][|w|] == c;
          if IsLocalChar(c) {
            assert IsAtom(w + [c]) by {
              assert forall i :: 0 <= i < |w| ==> (w + [c])[i] == w[i];
            }
            ScanLocalCorrect(t, w + [c]);
          } else {
            assert !IsAtom(p[0]);
          }
        }
        if |parts| == 2 {
          assert parts[1] == ps[1];
        }
      }
    }
  }

  /**
   * A valid address has no white space at either end, so trimming it changes
   * nothing and it is not blank.
   */
  lemma ValidEmailIsTrimmed(s: string)
    requires IsValidEmail(s)
    ensures Trim(s) == s && !IsBlank(s)
  {
    assert ScanLocal(s, false) && IsLocalChar(s[0]);
    TrimKeepsTrimmed(s);
  }
}
