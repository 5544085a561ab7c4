/**
 The revocation field of the certificate database, soa/lab3/haproxy/openssl/apps/ca.c: make_revocation_str
 prints it and unpack_revinfo reads it. C strings are Dafny strings; a NULL pointer is None.
 */
module CaRevocation {
  import opened Wrappers

  /** What the ASN.1 library accepts. */
  datatype Asn1 = Asn1(isUtcTime: string -> bool, isGeneralizedTime: string -> bool, isTime: string -> bool,
                       isObject: string -> bool)

  datatype RevocationType = RevValid | RevNone | RevCrlReason | RevHold | RevKeyCompromise | RevCaCompromise

  /** The last three are pseudo reasons of the database only. */
  const REASONS: seq<string> := [
    "unspecified", "keyCompromise", "CACompromise", "affiliationChanged", "superseded", "cessationOfOperation",
    "certificateHold", "removeFromCRL", "holdInstruction", "keyTime", "CAkeyTime"
  ]

  const HOLD := 8
  const KEY_TIME := 9
  const CA_KEY_TIME := 10

  function Lower(c: char): char {
    if 'A' <= c <= 'Z' then (c as int + 32) as char else c
  }

  predicate SameIgnoringCase(s: string, t: string) {
    |s| == |t| && forall i :: 0 <= i < |s| ==> Lower(s[i]) == Lower(t[i])
  }

  /** The first of the first n reasons that the text names, or n. */
  function ReasonIndex(s: string, n: nat, i: nat): (r: nat)
    requires i <= n <= |REASONS|
    ensures i <= r <= n && (r < n ==> SameIgnoringCase(s, REASONS[r]))
    ensures forall k :: i <= k < r ==> !SameIgnoringCase(s, REASONS[k])
    decreases n - i
  {
    if i == n || SameIgnoringCase(s, REASONS[i]) then i else ReasonIndex(s, n, i + 1)
  }

  method FindReason(s: string, n: nat) returns (r: nat)
    requires n <= |REASONS|
    ensures r == ReasonIndex(s, n, 0)
  {
    r := 0;
    while r < n
      invariant r <= n && ReasonIndex(s, n, 0) == ReasonIndex(s, n, r)
    {
      if SameIgnoringCase(s, REASONS[r]) { return; }
      r := r + 1;
    }
  }

  /** No two reasons are the same, and none holds a comma. */
  lemma ReasonsDiffer(i: nat, j: nat)
    requires i < j < |REASONS|
    ensures !SameIgnoringCase(REASONS[j], REASONS[i])
  {
    assert |REASONS[0]| == 11 && |REASONS[1]| == 13 && |REASONS[2]| == 12 && |REASONS[3]| == 18;
    assert |REASONS[4]| == 10 && |REASONS[5]| == 20 && |REASONS[6]| == 15 && |REASONS[7]| == 13;
    assert |REASONS[8]| == 15 && |REASONS[9]| == 7 && |REASONS[10]| == 9;
    assert Lower(REASONS[1][0]) == 'k' && Lower(REASONS[7][0]) == 'r';
    assert Lower(REASONS[6][0]) == 'c' && Lower(REASONS[8][0]) == 'h';
  }

  lemma ReasonsFound(i: nat)
    requires i < |REASONS|
    ensures ReasonIndex(REASONS[i], |REASONS|, 0) == i
  {
    hide SameIgnoringCase;
    var r := ReasonIndex(REASONS[i], |REASONS|, 0);
    SameAsItself(REASONS[i]);
    if r < i { ReasonsDiffer(r, i); }
  }

  lemma SameAsItself(s: string)
    ensures SameIgnoringCase(s, s)
  {
  }

  predicate NoComma(s: string) {
    forall i :: 0 <= i < |s| ==> s[i] != ','
  }

  lemma ReasonsPlain(i: nat)
    requires i < |REASONS|
    ensures NoComma(REASONS[i])
  {
    if {
      case i == 0 => assert REASONS[0] == "unspecified";
      case i == 1 => assert REASONS[1] == "keyCompromise";
      case i == 2 => assert REASONS[2] == "CACompromise";
      case i == 3 => assert REASONS[3] == "affiliationChanged";
      case i == 4 => assert REASONS[4] == "superseded";
      case i == 5 => assert REASONS[5] == "cessationOfOperation";
      case i == 6 => assert REASONS[6] == "certificateHold";
      case i == 7 => assert REASONS[7] == "removeFromCRL";
      case i == 8 => assert REASONS[8] == "holdInstruction";
      case i == 9 => assert REASONS[9] == "keyTime";
      case i == 10 => assert REASONS[10] == "CAkeyTime";
    }
  }

  // ----- Printing

  /** OPENSSL_strlcpy into a buffer of the given size. */
  function Strlcpy(src: string, size: nat): string {
    if size == 0 then "" else if |src| < size then src else src[..size - 1]
  }

  /** OPENSSL_strlcat onto what the buffer holds. */
  function Strlcat(dst: string, src: string, size: nat): string {
    if |dst| >= size then dst else dst + Strlcpy(src, size - |dst|)
  }

  /** The reason and the extra argument that a revocation records; None for arguments that are refused. */
  function Recorded(lib: Asn1, t: RevocationType, arg: string): Option<(Option<string>, Option<string>)> {
    match t
    case RevNone => Some((None, None))
    case RevValid => Some((None, None))
    case RevCrlReason =>
      var i := ReasonIndex(arg, 8, 0);
      if i == 8 then None else Some((Some(REASONS[i]), None))
    case RevHold => if lib.isObject(arg) then Some((Some(REASONS[HOLD]), Some(arg))) else None
    case RevKeyCompromise => if lib.isGeneralizedTime(arg) then Some((Some(REASONS[KEY_TIME]), Some(arg))) else None
    case RevCaCompromise => if lib.isGeneralizedTime(arg) then Some((Some(REASONS[CA_KEY_TIME]), Some(arg))) else None
  }

  function Tail(part: Option<string>): string {
    if part.Some? then "," + part.value else ""
  }

  /** revtime[,reason[,extra]] */
  function RevocationText(lib: Asn1, t: RevocationType, arg: string, now: Option<string>): Option<string> {
    var r := Recorded(lib, t, arg);
    if r.None? || now.None? then None else Some(now.value + Tail(r.value.0) + Tail(r.value.1))
  }

  lemma StrlcatFits(dst: string, src: string, size: nat)
    requires |dst| + |src| < size
    ensures Strlcat(dst, src, size) == dst + src
  {
  }

  /** A comma and one more part, if there is one. */
  method AppendPart(text: string, part: Option<string>, size: nat) returns (longer: string)
    requires |text| + |Tail(part)| < size
    ensures longer == text + Tail(part)
  {
    longer := text;
    if part.Some? {
      StrlcatFits(text, ",", size);
      StrlcatFits(text + ",", part.value, size);
      hide Strlcat;
      longer := Strlcat(longer, ",", size);
      longer := Strlcat(longer, part.value, size);
      assert longer == text + Tail(part);
    }
  }

  /** The buffer is just large enough: nothing is cut off. */
  method Assemble(now: string, reason: Option<string>, other: Option<string>) returns (text: string)
    ensures text == now + Tail(reason) + Tail(other)
  {
    var size := |now| + 1;
    if reason.Some? { size := size + |reason.value| + 1; }
    if other.Some? { size := size + |other.value| + 1; }
    text := Strlcpy(now, size);
    text := AppendPart(text, reason, size);
    text := AppendPart(text, other, size);
  }

  /** now is None when the clock cannot be read. */
  method MakeRevocationStr(lib: Asn1, t: RevocationType, arg: string, now: Option<string>) returns (str: Option<string>)
    ensures str == RevocationText(lib, t, arg, now)
  {
    var reason: Option<string>, other: Option<string> := None, None;
    match t {
      case RevNone =>
      case RevValid =>
      case RevCrlReason =>
        var i := FindReason(arg, 8);
        if i == 8 { return None; }
        reason := Some(REASONS[i]);
      case RevHold =>
        if !lib.isObject(arg) { return None; }
        reason, other := Some(REASONS[HOLD]), Some(arg);
      case RevKeyCompromise =>
        if !lib.isGeneralizedTime(arg) { return None; }
        reason, other := Some(REASONS[KEY_TIME]), Some(arg);
      case RevCaCompromise =>
        if !lib.isGeneralizedTime(arg) { return None; }
        reason, other := Some(REASONS[CA_KEY_TIME]), Some(arg);
    }
    if now.None? { return None; }
    var text := Assemble(now.value, reason, other);
    str := Some(text);
  }

  // ----- Reading

  datatype RevInfo = RevInfo(time: string, reason: int, hold: Option<string>, compromised: Option<string>)

  /** strchr */
  function CommaFrom(s: string, i: nat): (j: nat)
    requires i <= |s|
    ensures i <= j <= |s| && (j < |s| ==> s[j] == ',') && forall k :: i <= k < j ==> s[k] != ','
    decreases |s| - i
  {
    if i == |s| || s[i] == ',' then i else CommaFrom(s, i + 1)
  }

  /** The text up to the first comma, and what follows it if there is one. */
  function Cut(s: string): (string, Option<string>) {
    var j := CommaFrom(s, 0);
    (s[..j], if j < |s| then Some(s[j + 1..]) else None)
  }

  /** The codes that the OCSP header gives to the reasons. */
  const REMOVE_FROM_CRL := 8

  function Decoded(lib: Asn1, time: string, i: nat, arg: Option<string>): Option<RevInfo> {
    if i == |REASONS| then None
    else if i == 7 then Some(RevInfo(time, REMOVE_FROM_CRL, None, None))
    else if i == HOLD then
      if arg.Some? && lib.isObject(arg.value) then Some(RevInfo(time, 6, arg, None)) else None
    else if i == KEY_TIME || i == CA_KEY_TIME then
      if arg.Some? && lib.isGeneralizedTime(arg.value)
      then Some(RevInfo(time, if i == KEY_TIME then 1 else 2, None, arg)) else None
    else Some(RevInfo(time, i, None, None))
  }

  /** Reason -1 stands for no reason given. */
  function Unpacked(lib: Asn1, str: string): Option<RevInfo> {
    var (time, rest) := Cut(str);
    if !lib.isUtcTime(time) then None
    else if rest.None? then Some(RevInfo(time, -1, None, None))
    else
      var (reason, arg) := Cut(rest.value);
      Decoded(lib, time, ReasonIndex(reason, |REASONS|, 0), arg)
  }

  method UnpackRevinfo(lib: Asn1, str: string) returns (info: Option<RevInfo>)
    ensures info == Unpacked(lib, str)
  {
    var (time, rest) := Cut(str);
    if !lib.isUtcTime(time) { return None; }
    if rest.None? { return Some(RevInfo(time, -1, None, None)); }
    var (reason, arg) := Cut(rest.value);
    var i := FindReason(reason, |REASONS|);
    if i == |REASONS| { return None; }
    var code, hold, compromised := i as int, None, None;
    if i == 7 {
      code := REMOVE_FROM_CRL;
    } else if i == HOLD {
      if arg.None? || !lib.isObject(arg.value) { return None; }
      code, hold := 6, arg;
    } else if i == KEY_TIME || i == CA_KEY_TIME {
      if arg.None? || !lib.isGeneralizedTime(arg.value) { return None; }
      compromised := arg;
      code := if i == KEY_TIME then 1 else 2;
    }
    info := Some(RevInfo(time, code, hold, compromised));
  }

  // ----- What is printed can be read

  /** The reason codes of section 5.3.1 of RFC 5280, by position in the list of reasons. */
  function ReasonCode(i: nat): int
    requires i < 8
  {
    [0, 1, 2, 3, 4, 5, 6, 8][i]
  }

  /** What a revocation means. */
  function Intended(t: RevocationType, arg: string, now: string): RevInfo {
    match t
    case RevNone => RevInfo(now, -1, None, None)
    case RevValid => RevInfo(now, -1, None, None)
    case RevCrlReason =>
      var i := ReasonIndex(arg, 8, 0);
      RevInfo(now, if i < 8 then ReasonCode(i) else -1, None, None)
    case RevHold => RevInfo(now, 6, Some(arg), None)
    case RevKeyCompromise => RevInfo(now, 1, None, Some(arg))
    case RevCaCompromise => RevInfo(now, 2, None, Some(arg))
  }

  lemma CutAt(s: string, rest: string)
    requires NoComma(s)
    ensures Cut(s + "," + rest) == (s, Some(rest))
  {
    var whole := s + "," + rest;
    assert whole[|s|] == ',';
    assert forall k :: 0 <= k < |s| ==> whole[k] == s[k];
    assert CommaFrom(whole, 0) == |s|;
    assert whole[..|s|] == s && whole[|s| + 1..] == rest;
  }

  lemma CutNothing(s: string)
    requires NoComma(s)
    ensures Cut(s) == (s, None)
  {
    assert CommaFrom(s, 0) == |s|;
    assert s[..|s|] == s;
  }

  /** A field with a reason reads back as its time, the position of the reason and the extra argument. */
  lemma ReadBack(lib: Asn1, now: string, i: nat, reason: string, other: Option<string>)
    requires NoComma(now) && NoComma(reason) && ReasonIndex(reason, |REASONS|, 0) == i
    ensures Unpacked(lib, now + Tail(Some(reason)) + Tail(other))
         == if lib.isUtcTime(now) then Decoded(lib, now, i, other) else None
  {
    CutParts(now, reason, other);
    hide ReasonIndex, Decoded, Cut, NoComma;
  }

  lemma CutParts(now: string, reason: string, other: Option<string>)
    requires NoComma(now) && NoComma(reason)
    ensures Cut(now + Tail(Some(reason)) + Tail(other)) == (now, Some(reason + Tail(other)))
    ensures Cut(reason + Tail(other)) == (reason, other)
  {
    hide Cut, NoComma;
    assert now + Tail(Some(reason)) + Tail(other) == now + "," + (reason + Tail(other));
    CutAt(now, reason + Tail(other));
    if other.Some? {
      assert reason + Tail(other) == reason + "," + other.value;
      CutAt(reason, other.value);
    } else {
      assert reason + Tail(other) == reason;
      CutNothing(reason);
    }
  }

  lemma ReadBackListed(lib: Asn1, now: string, i: nat, other: Option<string>)
    requires NoComma(now) && i < |REASONS|
    ensures Unpacked(lib, now + Tail(Some(REASONS[i])) + Tail(other))
         == if lib.isUtcTime(now) then Decoded(lib, now, i, other) else None
  {
    hide Unpacked, Decoded, Tail;
    ReasonsPlain(i);
    ReasonsFound(i);
    ReadBack(lib, now, i, REASONS[i], other);
  }

  lemma ReadBackTime(lib: Asn1, now: string)
    requires NoComma(now)
    ensures Unpacked(lib, now + Tail(None) + Tail(None))
         == if lib.isUtcTime(now) then Some(RevInfo(now, -1, None, None)) else None
  {
    assert now + Tail(None) + Tail(None) == now;
    CutNothing(now);
  }

  /**
   For every type and every argument that is accepted, the printed field reads back as the same time and
   argument with the reason code of RFC 5280, exactly when the time is a UTCTime.
   */
  lemma UnpackRestores(lib: Asn1, t: RevocationType, arg: string, now: string)
    requires NoComma(now) && Recorded(lib, t, arg).Some?
    ensures RevocationText(lib, t, arg, Some(now)).Some?
    ensures Unpacked(lib, RevocationText(lib, t, arg, Some(now)).value)
         == if lib.isUtcTime(now) then Some(Intended(t, arg, now)) else None
  {
    hide Unpacked, Tail;
    match t
    case RevNone => ReadBackTime(lib, now);
    case RevValid => ReadBackTime(lib, now);
    case RevCrlReason => ReadBackListed(lib, now, ReasonIndex(arg, 8, 0), None);
    case RevHold => ReadBackListed(lib, now, HOLD, Some(arg));
    case RevKeyCompromise => ReadBackListed(lib, now, KEY_TIME, Some(arg));
    case RevCaCompromise => ReadBackListed(lib, now, CA_KEY_TIME, Some(arg));
  }

  // ----- The names and codes of RFC 5280

  /** The names and codes that section 5.3.1 of RFC 5280 gives. */
  const RFC_5280: seq<(string, int)> := [
    ("unspecified", 0), ("keyCompromise", 1), ("cACompromise", 2), ("affiliationChanged", 3), ("superseded", 4),
    ("cessationOfOperation", 5), ("certificateHold", 6), ("removeFromCRL", 8)
  ]

  lemma SameNames(s: string, t: string, u: string)
    requires SameIgnoringCase(s, t)
    ensures SameIgnoringCase(s, u) <==> SameIgnoringCase(t, u)
  {
  }

  /** Position by position, the database uses the names of the RFC up to case. */
  lemma RfcNames(k: nat)
    requires k < 8
    ensures SameIgnoringCase(RFC_5280[k].0, REASONS[k]) && RFC_5280[k].1 == ReasonCode(k)
    ensures REASONS[k] == if k == 2 then "CACompromise" else RFC_5280[k].0
  {
    SameAsItself(RFC_5280[k].0);
    if k == 2 {
      assert RFC_5280[2].0 == "cACompromise" && REASONS[2] == "CACompromise" && Lower('C') == 'c';
      assert "CACompromise"[1..] == "cACompromise"[1..] == "ACompromise";
      forall i | 0 <= i < 12 ensures Lower("cACompromise"[i]) == Lower("CACompromise"[i]) {
        if i > 0 { assert "cACompromise"[i] == "cACompromise"[1..][i - 1] && "CACompromise"[i] == "CACompromise"[1..][i - 1]; }
      }
    }
  }

  /** A text that names the k-th reason, in any case, is found at k and has no comma. */
  lemma NamedAt(arg: string, k: nat)
    requires k < |REASONS| && SameIgnoringCase(arg, REASONS[k])
    ensures NoComma(arg) && ReasonIndex(arg, |REASONS|, 0) == k && (k < 8 ==> ReasonIndex(arg, 8, 0) == k)
  {
    ReasonsPlain(k);
    forall i | 0 <= i < |arg| ensures arg[i] != ',' {
      assert Lower(arg[i]) == Lower(REASONS[k][i]) && REASONS[k][i] != ',';
    }
    forall j: nat | j < k ensures !SameIgnoringCase(arg, REASONS[j]) {
      ReasonsDiffer(j, k);
      SameNames(arg, REASONS[k], REASONS[j]);
    }
  }

  /**
   Each name of the RFC, in any case, is accepted as a reason, is written out in the spelling of the database, and
   reads back with its code; so does a field that was written with it in any case.
   */
  lemma ReasonsFollowRfc(lib: Asn1, arg: string, now: string, k: nat)
    requires k < 8 && SameIgnoringCase(arg, RFC_5280[k].0) && NoComma(now) && lib.isUtcTime(now)
    ensures RevocationText(lib, RevCrlReason, arg, Some(now))
         == Some(now + "," + if k == 2 then "CACompromise" else RFC_5280[k].0)
    ensures Unpacked(lib, RevocationText(lib, RevCrlReason, arg, Some(now)).value) == Some(RevInfo(now, RFC_5280[k].1, None, None))
    ensures Unpacked(lib, now + "," + arg) == Some(RevInfo(now, RFC_5280[k].1, None, None))
  {
    hide SameIgnoringCase, NoComma, Unpacked, RevocationText;
    RfcNames(k);
    SameNames(arg, RFC_5280[k].0, REASONS[k]);
    NamedAt(arg, k);
    NamedReads(lib, arg, now, k);
  }

  lemma NamedReads(lib: Asn1, arg: string, now: string, k: nat)
    requires k < 8 && ReasonIndex(arg, 8, 0) == k == ReasonIndex(arg, |REASONS|, 0) && NoComma(arg) && NoComma(now) && lib.isUtcTime(now)
    ensures RevocationText(lib, RevCrlReason, arg, Some(now)) == Some(now + "," + REASONS[k])
    ensures Unpacked(lib, RevocationText(lib, RevCrlReason, arg, Some(now)).value) == Some(RevInfo(now, ReasonCode(k), None, None))
    ensures Unpacked(lib, now + "," + arg) == Some(RevInfo(now, ReasonCode(k), None, None))
  {
    hide SameIgnoringCase, NoComma, Unpacked, Decoded, ReasonIndex, ReasonCode;
    OneTail(now, REASONS[k]);
    OneTail(now, arg);
    UnpackRestores(lib, RevCrlReason, arg, now);
    ReadBack(lib, now, k, arg, None);
    PlainCode(lib, now, k);
  }

  lemma OneTail(now: string, reason: string)
    ensures now + Tail(Some(reason)) + Tail(None) == now + "," + reason
  {
  }

  lemma PlainCode(lib: Asn1, now: string, k: nat)
    requires k < 8
    ensures Decoded(lib, now, k, None) == Some(RevInfo(now, ReasonCode(k), None, None))
  {
  }

  /** No other text is accepted as a reason. */
  lemma ReasonAcceptedIff(lib: Asn1, arg: string)
    ensures Recorded(lib, RevCrlReason, arg).Some? <==> exists k: nat :: k < 8 && SameIgnoringCase(arg, RFC_5280[k].0)
  {
    hide SameIgnoringCase;
    var i := ReasonIndex(arg, 8, 0);
    forall k: nat | k < 8 ensures SameIgnoringCase(arg, RFC_5280[k].0) <==> SameIgnoringCase(arg, REASONS[k]) {
      RfcNames(k);
      Interchange(arg, RFC_5280[k].0, REASONS[k]);
    }
    assert i < 8 ==> SameIgnoringCase(arg, RFC_5280[i].0);
  }

  lemma Interchange(arg: string, s: string, t: string)
    requires SameIgnoringCase(s, t)
    ensures SameIgnoringCase(arg, s) <==> SameIgnoringCase(arg, t)
  {
  }

  /** How the types with an argument, and that without a reason, are written. */
  lemma FieldsWritten(lib: Asn1, arg: string, now: string)
    ensures RevocationText(lib, RevNone, arg, Some(now)) == Some(now)
    ensures RevocationText(lib, RevHold, arg, Some(now))
         == if lib.isObject(arg) then Some(now + ",holdInstruction," + arg) else None
    ensures RevocationText(lib, RevKeyCompromise, arg, Some(now))
         == if lib.isGeneralizedTime(arg) then Some(now + ",keyTime," + arg) else None
    ensures RevocationText(lib, RevCaCompromise, arg, Some(now))
         == if lib.isGeneralizedTime(arg) then Some(now + ",CAkeyTime," + arg) else None
  {
    hide Tail;
    BetweenCommas();
    Joined(now, REASONS[HOLD], ",holdInstruction,", arg);
    Joined(now, REASONS[KEY_TIME], ",keyTime,", arg);
    Joined(now, REASONS[CA_KEY_TIME], ",CAkeyTime,", arg);
  }

  lemma BetweenCommas()
    ensures ",holdInstruction," == "," + REASONS[HOLD] + ","
    ensures ",keyTime," == "," + REASONS[KEY_TIME] + "," && ",CAkeyTime," == "," + REASONS[CA_KEY_TIME] + ","
  {
  }

  lemma Joined(now: string, reason: string, middle: string, arg: string)
    requires middle == "," + reason + ","
    ensures now + Tail(Some(reason)) + Tail(Some(arg)) == now + middle + arg
    ensures now + Tail(None) + Tail(None) == now
  {
  }
}
