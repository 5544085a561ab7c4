/**
 The certificate database of soa/lab3/haproxy/openssl/apps/ca.c: the start-up check of its rows, insertion,
 revocation and the marking of expired rows. A field that is NULL in memory is written and read as "".
 */
module CaDatabase {
  import opened Wrappers
  import opened CaRevocation

  datatype Row = Row(kind: char, expDate: string, revDate: string, serial: string, file: string, name: string)

  /** indexed[i] tells whether row i is in the index of names, which exists only for unique subjects. */
  datatype Db = Db(rows: seq<Row>, indexed: seq<bool>, uniqueSubject: bool)

  datatype Certificate = Certificate(serial: int, subject: string, notAfter: string)

  // ----- Serial numbers

  function HexDigit(d: nat): char
    requires d < 16
  {
    "0123456789ABCDEF"[d]
  }

  function HexBytes(n: nat): string {
    if n == 0 then "" else HexBytes(n / 256) + [HexDigit(n % 256 / 16), HexDigit(n % 16)]
  }

  /** BN_bn2hex, with zero written as one byte. */
  function SerialText(n: int): string {
    if n == 0 then "00" else if n < 0 then "-" + HexBytes(-n) else HexBytes(n)
  }

  predicate IsHex(c: char) {
    '0' <= c <= '9' || 'A' <= c <= 'F' || 'a' <= c <= 'f'
  }

  function Unsigned(s: string): string {
    if |s| > 0 && s[0] == '-' then s[1..] else s
  }

  predicate AllHex(p: string) {
    forall i :: 0 <= i < |p| ==> IsHex(p[i])
  }

  /** An optional sign and an even, positive number of hexadecimal digits. */
  predicate SerialOk(s: string) {
    |Unsigned(s)| % 2 == 0 && |Unsigned(s)| >= 2 && AllHex(Unsigned(s))
  }

  function StripZeros(s: string): string {
    if |s| > 0 && s[0] == '0' then StripZeros(s[1..]) else s
  }

  /** The comparison of the index of serial numbers. */
  predicate SameSerial(s: string, t: string) {
    StripZeros(s) == StripZeros(t)
  }

  lemma HexDigitIsHex(d: nat)
    requires d < 16
    ensures IsHex(HexDigit(d)) && HexDigit(d) != '-'
  {
  }

  lemma {:induction false} HexBytesShape(n: nat)
    ensures |HexBytes(n)| % 2 == 0 && (n > 0 ==> |HexBytes(n)| >= 2) && AllHex(HexBytes(n))
  {
    hide HexDigit, AllHex;
    if n == 0 {
      NoDigits();
    } else {
      HexBytesShape(n / 256);
      HexDigitIsHex(n % 256 / 16);
      HexDigitIsHex(n % 16);
      TwoMoreDigits(HexBytes(n / 256), HexDigit(n % 256 / 16), HexDigit(n % 16));
    }
  }

  lemma NoDigits()
    ensures AllHex("")
  {
  }

  lemma TwoMoreDigits(s: string, a: char, b: char)
    requires AllHex(s) && IsHex(a) && IsHex(b)
    ensures AllHex(s + [a, b])
  {
  }

  /** What the tool writes as a serial number passes the start-up check. */
  lemma SerialTextOk(n: int)
    ensures SerialOk(SerialText(n))
  {
    hide HexBytes;
    if n > 0 {
      HexBytesShape(n);
      assert IsHex(SerialText(n)[0]);
      assert Unsigned(SerialText(n)) == HexBytes(n);
    } else if n < 0 {
      HexBytesShape(-n);
      assert Unsigned(SerialText(n)) == HexBytes(-n);
    } else {
      ZeroTextOk();
    }
  }

  lemma ZeroTextOk()
    ensures SerialOk("00")
  {
    assert Unsigned("00") == "00" && "00"[0] == '0' && "00"[1] == '0' && IsHex('0');
  }

  function DigitValue(c: char): nat {
    if '0' <= c <= '9' then c as nat - '0' as nat
    else if 'A' <= c <= 'F' then c as nat - 'A' as nat + 10 else 0
  }

  function HexValue(s: string): nat {
    if s == "" then 0 else 16 * HexValue(s[..|s| - 1]) + DigitValue(s[|s| - 1])
  }

  lemma DigitRestored(d: nat)
    requires d < 16
    ensures DigitValue(HexDigit(d)) == d
  {
  }

  lemma ValueOfByte(s: string, a: char, b: char)
    ensures HexValue(s + [a, b]) == 16 * (16 * HexValue(s) + DigitValue(a)) + DigitValue(b)
  {
    var t := s + [a, b];
    assert t[..|t| - 1] == s + [a] && (s + [a])[..|s|] == s;
  }

  lemma ByteOf(n: nat)
    ensures n == 16 * (16 * (n / 256) + n % 256 / 16) + n % 16
  {
  }

  lemma {:induction false} HexBytesValue(n: nat)
    ensures HexValue(HexBytes(n)) == n
  {
    if n > 0 {
      hide HexDigit, DigitValue, HexValue;
      HexBytesValue(n / 256);
      ValueOfByte(HexBytes(n / 256), HexDigit(n % 256 / 16), HexDigit(n % 16));
      DigitRestored(n % 256 / 16);
      DigitRestored(n % 16);
      ByteOf(n);
      assert HexBytes(n) == HexBytes(n / 256) + [HexDigit(n % 256 / 16), HexDigit(n % 16)];
    }
  }

  lemma {:induction false} LeadingZero(s: string)
    ensures HexValue("0" + s) == HexValue(s)
    decreases |s|
  {
    if s != "" {
      LeadingZero(s[..|s| - 1]);
      assert ("0" + s)[..|s|] == "0" + s[..|s| - 1];
    } else {
      assert ("0" + s)[..0] == "";
    }
  }

  lemma {:induction false} StripKeepsValue(s: string)
    ensures HexValue(StripZeros(s)) == HexValue(s)
  {
    if |s| > 0 && s[0] == '0' {
      StripKeepsValue(s[1..]);
      LeadingZero(s[1..]);
      assert s == "0" + s[1..];
    }
  }

  lemma {:induction false} StripPlain(s: string)
    requires AllHex(s)
    ensures StripZeros(s) != [] ==> StripZeros(s)[0] != '-'
  {
    if |s| > 0 && s[0] == '0' { StripPlain(s[1..]); }
  }

  /** Two certificates meet in the index of serial numbers exactly when their serial numbers are equal. */
  lemma SerialsIdentify(a: int, b: int)
    ensures SameSerial(SerialText(a), SerialText(b)) <==> a == b
  {
    hide HexBytes, HexValue;
    if SameSerial(SerialText(a), SerialText(b)) {
      if a >= 0 && b >= 0 {
        NonNegativeValue(a);
        NonNegativeValue(b);
      } else if a < 0 && b < 0 {
        assert SerialText(a)[1..] == HexBytes(-a) && SerialText(b)[1..] == HexBytes(-b);
        HexBytesValue(-a);
        HexBytesValue(-b);
      } else {
        SignsDiffer(if a < 0 then a else b, if a < 0 then b else a);
      }
    }
  }

  lemma NonNegativeValue(n: nat)
    ensures HexValue(StripZeros(SerialText(n))) == n
  {
    StripKeepsValue(SerialText(n));
    if n == 0 {
      assert SerialText(0) == "0" + ("0" + "");
      LeadingZero("0" + "");
      LeadingZero("");
    } else {
      HexBytesValue(n);
    }
  }

  lemma SignsDiffer(a: int, b: int)
    requires a < 0 <= b
    ensures !SameSerial(SerialText(a), SerialText(b))
  {
    HexBytesShape(b);
    ZeroTextOk();
    assert Unsigned("00") == "00";
    StripPlain(SerialText(b));
    assert StripZeros(SerialText(a))[0] == '-';
  }

  // ----- The start-up check and the indexes

  /** What ca_main checks of every row before it does anything. */
  predicate RowOk(lib: Asn1, r: Row) {
    && (r.kind != 'R' ==> r.revDate == "")
    && (r.kind == 'R' ==> Unpacked(lib, r.revDate).Some?)
    && lib.isTime(r.expDate)
    && SerialOk(r.serial)
  }

  method StartUpCheck(lib: Asn1, rows: seq<Row>) returns (ok: bool)
    ensures ok <==> forall i :: 0 <= i < |rows| ==> RowOk(lib, rows[i])
  {
    for i := 0 to |rows|
      invariant forall k :: 0 <= k < i ==> RowOk(lib, rows[k])
    {
      var r := rows[i];
      if r.kind != 'R' && r.revDate != "" { return false; }
      if r.kind == 'R' {
        var info := UnpackRevinfo(lib, r.revDate);
        if info.None? { return false; }
      }
      if !lib.isTime(r.expDate) { return false; }
      var p := Unsigned(r.serial);
      if |p| % 2 != 0 || |p| < 2 { return false; }
      for j := 0 to |p|
        invariant forall k :: 0 <= k < j ==> IsHex(p[k])
      {
        if !IsHex(p[j]) {
          assert !AllHex(Unsigned(rows[i].serial));
          return false;
        }
      }
    }
    ok := true;
  }

  function FindSerial(rows: seq<Row>, serial: string, i: nat): (j: nat)
    requires i <= |rows|
    ensures i <= j <= |rows| && (j < |rows| ==> SameSerial(rows[j].serial, serial))
    ensures forall k :: i <= k < j ==> !SameSerial(rows[k].serial, serial)
    decreases |rows| - i
  {
    if i == |rows| || SameSerial(rows[i].serial, serial) then i else FindSerial(rows, serial, i + 1)
  }

  function FindName(rows: seq<Row>, indexed: seq<bool>, name: string, i: nat): (j: nat)
    requires i <= |rows| == |indexed|
    ensures i <= j <= |rows| && (j < |rows| ==> indexed[j] && rows[j].name == name)
    ensures forall k :: i <= k < j ==> !(indexed[k] && rows[k].name == name)
    decreases |rows| - i
  {
    if i == |rows| || (indexed[i] && rows[i].name == name) then i else FindName(rows, indexed, name, i + 1)
  }

  ghost predicate RowsOk(lib: Asn1, rows: seq<Row>) {
    forall i :: 0 <= i < |rows| ==> RowOk(lib, rows[i])
  }

  ghost predicate SerialsDistinct(rows: seq<Row>) {
    forall i, j :: 0 <= i < j < |rows| ==> !SameSerial(rows[i].serial, rows[j].serial)
  }

  /** Every valid row is in the index of names, and no two rows in it share a name. */
  ghost predicate NamesIndexed(db: Db) {
    && |db.indexed| == |db.rows|
    && (db.uniqueSubject ==>
          (forall i :: 0 <= i < |db.rows| && db.rows[i].kind == 'V' ==> db.indexed[i])
          && (forall i, j :: 0 <= i < j < |db.rows| && db.indexed[i] && db.indexed[j] ==> db.rows[i].name != db.rows[j].name))
  }

  ghost predicate Sound(lib: Asn1, db: Db) {
    RowsOk(lib, db.rows) && SerialsDistinct(db.rows) && NamesIndexed(db)
  }

  // ----- The operations

  function NameOf(c: Certificate): string {
    if c.subject == "" then SerialText(c.serial) else c.subject
  }

  function ValidRow(c: Certificate): Row {
    Row('V', c.notAfter, "", SerialText(c.serial), "unknown", NameOf(c))
  }

  predicate Clashes(db: Db, r: Row)
    requires |db.indexed| == |db.rows|
  {
    || (db.uniqueSubject && r.kind == 'V' && FindName(db.rows, db.indexed, r.name, 0) < |db.rows|)
    || FindSerial(db.rows, r.serial, 0) < |db.rows|
  }

  /** TXT_DB_insert: refused on a clash with either index. */
  function Append(db: Db, r: Row): Db {
    Db(db.rows + [r], db.indexed + [db.uniqueSubject && r.kind == 'V'], db.uniqueSubject)
  }

  /** The end of do_body, from the look for a matching row on. */
  function Inserted(db: Db, c: Certificate, confirmed: bool): (Db, bool)
    requires |db.indexed| == |db.rows|
  {
    if Clashes(db, ValidRow(c)) || !confirmed then (db, false) else (Append(db, ValidRow(c)), true)
  }

  function RevokeRow(lib: Asn1, db: Db, i: nat, name: string, t: RevocationType, arg: string, now: Option<string>): (Db, bool)
    requires i < |db.rows|
  {
    var r := db.rows[i];
    var text := RevocationText(lib, t, arg, now);
    if r.name != name || t.RevValid? || r.kind == 'R' || text.None? then (db, false)
    else (db.(rows := db.rows[i := r.(kind := 'R', revDate := text.value)]), true)
  }

  /** do_revoke: a certificate that is not in the database is added first. */
  function Revoked(lib: Asn1, db: Db, c: Certificate, t: RevocationType, arg: string, now: Option<string>): (Db, bool)
    requires |db.indexed| == |db.rows|
  {
    var i := FindSerial(db.rows, SerialText(c.serial), 0);
    if i < |db.rows| then RevokeRow(lib, db, i, NameOf(c), t, arg, now)
    else if Clashes(db, ValidRow(c)) then (db, false)
    else if t.RevValid? then (Append(db, ValidRow(c)), true)
    else RevokeRow(lib, Append(db, ValidRow(c)), |db.rows|, NameOf(c), t, arg, now)
  }

  function Aged(r: Row, expired: string -> bool): Row {
    if r.kind == 'V' && expired(r.expDate) then r.(kind := 'E') else r
  }

  /** The first n rows with those marked whose time has come. */
  function AgedRows(rows: seq<Row>, expired: string -> bool, n: nat): (a: seq<Row>)
    requires n <= |rows|
    ensures |a| == |rows|
  {
    seq(|rows|, i requires 0 <= i < |rows| => if i < n then Aged(rows[i], expired) else rows[i])
  }

  /** The first valid row from i on whose time cannot be read, or the number of rows. */
  function FirstUnreadable(lib: Asn1, rows: seq<Row>, i: nat): (j: nat)
    requires i <= |rows|
    ensures i <= j <= |rows| && (j < |rows| ==> rows[j].kind == 'V' && !lib.isTime(rows[j].expDate))
    ensures forall k :: i <= k < j && rows[k].kind == 'V' ==> lib.isTime(rows[k].expDate)
    decreases |rows| - i
  {
    if i == |rows| || (rows[i].kind == 'V' && !lib.isTime(rows[i].expDate)) then i else FirstUnreadable(lib, rows, i + 1)
  }

  /** The valid rows among the first n whose time has come. */
  ghost function Expiring(rows: seq<Row>, expired: string -> bool, n: nat): set<int>
    requires n <= |rows|
  {
    set i | 0 <= i < n && rows[i].kind == 'V' && expired(rows[i].expDate)
  }

  lemma AgedEach(rows: seq<Row>, expired: string -> bool, n: nat)
    requires n <= |rows|
    ensures forall i :: 0 <= i < |rows| ==>
      AgedRows(rows, expired, n)[i]
      == if rows[i].kind == 'V' && expired(rows[i].expDate) && i < n then rows[i].(kind := 'E') else rows[i]
  {
  }

  lemma NoneAged(rows: seq<Row>, expired: string -> bool)
    ensures AgedRows(rows, expired, 0) == rows && Expiring(rows, expired, 0) == {}
  {
  }

  lemma NextAged(rows: seq<Row>, expired: string -> bool, i: nat)
    requires i < |rows|
    ensures AgedRows(rows, expired, i)[i] == rows[i]
    ensures AgedRows(rows, expired, i + 1) == AgedRows(rows, expired, i)[i := Aged(rows[i], expired)]
    ensures |Expiring(rows, expired, i + 1)|
         == |Expiring(rows, expired, i)| + if rows[i].kind == 'V' && expired(rows[i].expDate) then 1 else 0
  {
    assert Expiring(rows, expired, i + 1)
        == Expiring(rows, expired, i) + if rows[i].kind == 'V' && expired(rows[i].expDate) then {i} else {};
  }

  class CertificateDb {
    var rows: seq<Row>
    var indexed: seq<bool>
    const uniqueSubject: bool

    ghost predicate Valid()
      reads this
    {
      |indexed| == |rows|
    }

    ghost function View(): Db
      reads this
    {
      Db(rows, indexed, uniqueSubject)
    }

    /** Loading builds the indexes afresh. */
    constructor (rows: seq<Row>, uniqueSubject: bool)
      ensures Valid() && View() == Restarted(Db(rows, indexed, uniqueSubject))
    {
      this.rows := rows;
      this.uniqueSubject := uniqueSubject;
      indexed := seq(|rows|, i requires 0 <= i < |rows| => uniqueSubject && rows[i].kind == 'V');
    }

    method GetBySerial(serial: string) returns (i: nat)
      ensures i == FindSerial(rows, serial, 0)
    {
      i := FindSerial(rows, serial, 0);
    }

    method InsertRow(r: Row) returns (ok: bool)
      requires Valid()
      modifies this
      ensures Valid() && ok == !Clashes(old(View()), r)
      ensures View() == if ok then Append(old(View()), r) else old(View())
    {
      if uniqueSubject && r.kind == 'V' && FindName(rows, indexed, r.name, 0) < |rows| { return false; }
      if FindSerial(rows, r.serial, 0) < |rows| { return false; }
      indexed := indexed + [uniqueSubject && r.kind == 'V'];
      rows := rows + [r];
      ok := true;
    }

    method Insert(c: Certificate, confirmed: bool) returns (ok: bool)
      requires Valid()
      modifies this
      ensures Valid() && (View(), ok) == Inserted(old(View()), c, confirmed)
      ensures ok <==> confirmed && !Occupied(old(View()), c)
      ensures rows == if ok then old(rows) + [Row('V', c.notAfter, "", SerialText(c.serial), "unknown", SubjectOrSerial(c))] else old(rows)
    {
      NoClash(View(), c);
      if uniqueSubject && FindName(rows, indexed, NameOf(c), 0) < |rows| { return false; }
      var i := GetBySerial(SerialText(c.serial));
      if i < |rows| { return false; }
      if !confirmed { return false; }
      ok := InsertRow(ValidRow(c));
    }

    /** Calls itself only for a serial number that is missing, and never twice: the second call finds it. */
    method DoRevoke(lib: Asn1, c: Certificate, t: RevocationType, arg: string, now: Option<string>) returns (ok: bool)
      requires Valid()
      modifies this
      ensures Valid() && (View(), ok) == Revoked(lib, old(View()), c, t, arg, now)
      ensures ok <==> CanRevoke(lib, old(View()), c, t, arg, now)
      ensures ok && !t.RevValid? ==> RevocationRecorded(lib, old(rows), rows, c, t, arg, now.value)
      ensures !ok || t.RevValid? ==>
                rows == old(rows) + if Occupied(old(View()), c) then []
                                    else [Row('V', c.notAfter, "", SerialText(c.serial), "unknown", SubjectOrSerial(c))]
      decreases if FindSerial(rows, SerialText(c.serial), 0) < |rows| then 0 else 1
    {
      RevokeRecords(lib, View(), c, t, arg, now);
      hide RevocationText, SameSerial, SerialText, RevocationRecorded, CanRevoke, Clashes, Occupied;
      var i := GetBySerial(SerialText(c.serial));
      if i == |rows| {
        ghost var before := View();
        ok := InsertRow(ValidRow(c));
        if !ok { return false; }
        FoundLast(before, c);
        if t.RevValid? { return true; }
        ok := DoRevoke(lib, c, t, arg, now);
      } else if rows[i].name != NameOf(c) {
        ok := false;
      } else if t.RevValid? {
        ok := false;
      } else if rows[i].kind == 'R' {
        ok := false;
      } else {
        var text := MakeRevocationStr(lib, t, arg, now);
        if text.None? { return false; }
        rows := rows[i := rows[i].(kind := 'R', revDate := text.value)];
        ok := true;
      }
    }

    /** Returns None at the first valid row whose time cannot be read; the rows before it are already marked. */
    method UpdateDb(lib: Asn1, expired: string -> bool) returns (count: Option<nat>)
      requires Valid()
      modifies this
      ensures Valid() && indexed == old(indexed)
      ensures rows == AgedRows(old(rows), expired, FirstUnreadable(lib, old(rows), 0))
      ensures count.None? <==> FirstUnreadable(lib, old(rows), 0) < |old(rows)|
      ensures count.Some? ==> count.value == |Expiring(old(rows), expired, |old(rows)|)|
      ensures |rows| == |old(rows)| && forall i :: 0 <= i < |rows| ==>
                rows[i] == if old(rows)[i].kind == 'V' && expired(old(rows)[i].expDate) && i < FirstUnreadable(lib, old(rows), 0)
                           then old(rows)[i].(kind := 'E') else old(rows)[i]
    {
      hide AgedRows, Expiring;
      var cnt := 0;
      ghost var was := rows;
      NoneAged(was, expired);
      AgedEach(was, expired, FirstUnreadable(lib, was, 0));
      for i := 0 to |rows|
        invariant |rows| == |was| && indexed == old(indexed) && rows == AgedRows(was, expired, i)
        invariant cnt == |Expiring(was, expired, i)|
        invariant FirstUnreadable(lib, was, 0) == FirstUnreadable(lib, was, i)
      {
        NextAged(was, expired, i);
        if rows[i].kind == 'V' {
          if !lib.isTime(rows[i].expDate) { return None; }
          if expired(rows[i].expDate) {
            rows := rows[i := rows[i].(kind := 'E')];
            cnt := cnt + 1;
          }
        }
      }
      count := Some(cnt);
    }
  }

  // ----- The operations once more, by what they do to the rows

  function SubjectOrSerial(c: Certificate): string {
    if c.subject == "" then SerialText(c.serial) else c.subject
  }

  /** A row has the serial number of the certificate, or a valid one its name where names are unique. */
  ghost predicate Occupied(db: Db, c: Certificate)
    requires |db.indexed| == |db.rows|
  {
    || (exists i :: 0 <= i < |db.rows| && SameSerial(db.rows[i].serial, SerialText(c.serial)))
    || (db.uniqueSubject && exists i :: 0 <= i < |db.rows| && db.indexed[i] && db.rows[i].name == SubjectOrSerial(c))
  }

  lemma NoClash(db: Db, c: Certificate)
    requires |db.indexed| == |db.rows|
    ensures Clashes(db, ValidRow(c)) <==> Occupied(db, c)
  {
    hide SameSerial, SerialText;
  }

  /** The row with the serial number of the certificate exists and is neither revoked nor another name's, or can be added. */
  ghost predicate CanRevoke(lib: Asn1, db: Db, c: Certificate, t: RevocationType, arg: string, now: Option<string>)
    requires |db.indexed| == |db.rows|
  {
    && (t.RevValid? || (Recorded(lib, t, arg).Some? && now.Some?))
    && (!Occupied(db, c)
        || (!t.RevValid? && exists i :: 0 <= i < |db.rows| && IsRowOf(db.rows, i, c)
                                        && db.rows[i].name == SubjectOrSerial(c) && db.rows[i].kind != 'R'))
  }

  /** Row i is the first with the serial number of the certificate. */
  ghost predicate IsRowOf(rows: seq<Row>, i: nat, c: Certificate)
    requires i < |rows|
  {
    && SameSerial(rows[i].serial, SerialText(c.serial))
    && forall j :: 0 <= j < i ==> !SameSerial(rows[j].serial, SerialText(c.serial))
  }

  /**
   The row of the certificate is revoked, and its field reads as what was asked for if the time is a UTCTime. If it
   was there before it is otherwise as it was, if not it is new at the end; all other rows are as before.
   */
  ghost predicate RevocationRecorded(lib: Asn1, before: seq<Row>, after: seq<Row>, c: Certificate, t: RevocationType, arg: string, now: string) {
    exists i: nat :: i < |after| && IsRowOf(after, i, c) && RevokedAt(lib, before, after, i, c, t, arg, now)
  }

  ghost predicate RevokedAt(lib: Asn1, before: seq<Row>, after: seq<Row>, i: nat, c: Certificate, t: RevocationType, arg: string, now: string)
    requires i < |after|
  {
    && after[i].kind == 'R' && after[i].name == SubjectOrSerial(c)
    && RevocationText(lib, t, arg, Some(now)) == Some(after[i].revDate)
    && (NoComma(now) && lib.isUtcTime(now) ==> Unpacked(lib, after[i].revDate) == Some(Intended(t, arg, now)))
    && (if i < |before| then |after| == |before| && after[i] == before[i].(kind := 'R', revDate := after[i].revDate)
        else i == |before| == |after| - 1
             && after[i] == Row('R', c.notAfter, after[i].revDate, SerialText(c.serial), "unknown", SubjectOrSerial(c)))
    && forall j :: 0 <= j < |before| && j != i ==> after[j] == before[j]
  }

  lemma RevokeRecords(lib: Asn1, db: Db, c: Certificate, t: RevocationType, arg: string, now: Option<string>)
    requires |db.indexed| == |db.rows|
    ensures Revoked(lib, db, c, t, arg, now).1 <==> CanRevoke(lib, db, c, t, arg, now)
    ensures Revoked(lib, db, c, t, arg, now).1 && !t.RevValid? ==>
              RevocationRecorded(lib, db.rows, Revoked(lib, db, c, t, arg, now).0.rows, c, t, arg, now.value)
    ensures !Revoked(lib, db, c, t, arg, now).1 || t.RevValid? ==>
              Revoked(lib, db, c, t, arg, now).0.rows
              == db.rows + if Occupied(db, c) then [] else [Row('V', c.notAfter, "", SerialText(c.serial), "unknown", SubjectOrSerial(c))]
  {
    hide SameSerial, SerialText, Unpacked, Intended, Recorded, NoComma;
    NoClash(db, c);
    var i := FindSerial(db.rows, SerialText(c.serial), 0);
    if i < |db.rows| {
      assert IsRowOf(db.rows, i, c) && Occupied(db, c);
      assert forall k: nat :: k < |db.rows| && IsRowOf(db.rows, k, c) ==> k == i;
      if !t.RevValid? { RowRecords(lib, db, i, c, t, arg, now, db.rows); }
    } else if !Clashes(db, ValidRow(c)) {
      var added := Append(db, ValidRow(c));
      FoundLast(db, c);
      assert IsRowOf(added.rows, |db.rows|, c);
      if !t.RevValid? { RowRecords(lib, added, |db.rows|, c, t, arg, now, db.rows); }
    }
  }

  lemma RowRecords(lib: Asn1, db: Db, i: nat, c: Certificate, t: RevocationType, arg: string, now: Option<string>, before: seq<Row>)
    requires i < |db.rows| && IsRowOf(db.rows, i, c) && !t.RevValid?
    requires db.rows == before || (db.rows == before + [ValidRow(c)] && i == |before|)
    ensures RevokeRow(lib, db, i, NameOf(c), t, arg, now).1
       <==> db.rows[i].name == SubjectOrSerial(c) && db.rows[i].kind != 'R' && Recorded(lib, t, arg).Some? && now.Some?
    ensures RevokeRow(lib, db, i, NameOf(c), t, arg, now).1 ==>
              RevocationRecorded(lib, before, RevokeRow(lib, db, i, NameOf(c), t, arg, now).0.rows, c, t, arg, now.value)
  {
    hide SameSerial, SerialText, Unpacked, Intended, Recorded, NoComma;
    var r := RevokeRow(lib, db, i, NameOf(c), t, arg, now);
    if r.1 {
      if NoComma(now.value) { UnpackRestores(lib, t, arg, now.value); }
      var after := r.0.rows;
      assert IsRowOf(after, i, c);
      assert RevokedAt(lib, before, after, i, c, t, arg, now.value);
    }
  }

  lemma FoundLast(db: Db, c: Certificate)
    requires |db.indexed| == |db.rows| && FindSerial(db.rows, SerialText(c.serial), 0) == |db.rows|
    ensures FindSerial(Append(db, ValidRow(c)).rows, SerialText(c.serial), 0) == |db.rows|
  {
    var rows := db.rows + [ValidRow(c)];
    assert SameSerial(rows[|db.rows|].serial, SerialText(c.serial));
    forall k | 0 <= k < |db.rows| ensures !SameSerial(rows[k].serial, SerialText(c.serial)) {
      assert rows[k] == db.rows[k];
    }
  }

  /** Writing the database and loading it in a new process. */
  function Restarted(db: Db): Db {
    db.(indexed := seq(|db.rows|, i requires 0 <= i < |db.rows| => db.uniqueSubject && db.rows[i].kind == 'V'))
  }

  // ----- What every operation keeps

  lemma AppendSound(lib: Asn1, db: Db, c: Certificate)
    requires Sound(lib, db) && !Clashes(db, ValidRow(c))
    ensures Sound(lib, Append(db, ValidRow(c))) <==> lib.isTime(c.notAfter)
  {
    hide SerialOk, SameSerial, SerialText, Unpacked;
    SerialTextOk(c.serial);
    var r, rows := ValidRow(c), Append(db, ValidRow(c)).rows;
    assert rows[|db.rows|] == r;
    assert RowOk(lib, r) <==> lib.isTime(c.notAfter);
    assert forall i :: 0 <= i < |db.rows| ==> rows[i] == db.rows[i];
    assert RowsOk(lib, rows) <==> lib.isTime(c.notAfter);
    assert SerialsDistinct(rows);
    assert NamesIndexed(Append(db, r));
  }

  /** Inserting keeps the database sound unless it stores an expiry time that the check would refuse. */
  lemma InsertKeepsSound(lib: Asn1, db: Db, c: Certificate, confirmed: bool)
    requires Sound(lib, db)
    ensures |db.indexed| == |db.rows|
    ensures Sound(lib, Inserted(db, c, confirmed).0) <==> (confirmed && !Clashes(db, ValidRow(c)) ==> lib.isTime(c.notAfter))
  {
    SoundIndexes(lib, db);
    hide Sound, Clashes;
    if !Clashes(db, ValidRow(c)) { AppendSound(lib, db, c); }
  }

  /** The guards under which a row is marked as revoked. */
  predicate MarksRow(lib: Asn1, r: Row, name: string, t: RevocationType, arg: string, now: Option<string>) {
    r.name == name && !t.RevValid? && r.kind != 'R' && Recorded(lib, t, arg).Some? && now.Some?
  }

  /** A row that is revoked passes the check exactly when the clock gives a UTCTime. */
  lemma RevokeRowSound(lib: Asn1, db: Db, i: nat, name: string, t: RevocationType, arg: string, now: Option<string>)
    requires Sound(lib, db) && i < |db.rows| && (now.Some? ==> NoComma(now.value))
    ensures Sound(lib, RevokeRow(lib, db, i, name, t, arg, now).0)
       <==> (MarksRow(lib, db.rows[i], name, t, arg, now) ==> lib.isUtcTime(now.value))
  {
    hide SerialOk, SameSerial, Unpacked, NoComma, Recorded;
    var after := RevokeRow(lib, db, i, name, t, arg, now);
    if MarksRow(lib, db.rows[i], name, t, arg, now) {
      UnpackRestores(lib, t, arg, now.value);
      assert RowOk(lib, after.0.rows[i]) <==> lib.isUtcTime(now.value);
      assert RowsOk(lib, after.0.rows) <==> lib.isUtcTime(now.value);
      assert forall j :: 0 <= j < |db.rows| ==> after.0.rows[j].serial == db.rows[j].serial && after.0.rows[j].name == db.rows[j].name;
      assert SerialsDistinct(after.0.rows) && NamesIndexed(after.0);
    }
  }

  /** Whether do_revoke adds a row for the certificate. */
  predicate Adds(db: Db, c: Certificate)
    requires |db.indexed| == |db.rows|
  {
    FindSerial(db.rows, SerialText(c.serial), 0) == |db.rows| && !Clashes(db, ValidRow(c))
  }

  /** Whether do_revoke marks a row: the one with the serial number, or the one that it adds. */
  predicate Marks(lib: Asn1, db: Db, c: Certificate, t: RevocationType, arg: string, now: Option<string>)
    requires |db.indexed| == |db.rows|
  {
    var i := FindSerial(db.rows, SerialText(c.serial), 0);
    if i < |db.rows| then MarksRow(lib, db.rows[i], NameOf(c), t, arg, now)
    else Adds(db, c) && MarksRow(lib, ValidRow(c), NameOf(c), t, arg, now)
  }

  /**
   Revoking keeps the database sound if and only if an added row has an expiry time that the check accepts and
   a row marked as revoked gets its time as a UTCTime.
   */
  lemma RevokeKeepsSound(lib: Asn1, db: Db, c: Certificate, t: RevocationType, arg: string, now: Option<string>)
    requires Sound(lib, db) && (now.Some? ==> NoComma(now.value))
    ensures |db.indexed| == |db.rows|
    ensures Sound(lib, Revoked(lib, db, c, t, arg, now).0)
       <==> (Adds(db, c) ==> lib.isTime(c.notAfter)) && (Marks(lib, db, c, t, arg, now) ==> lib.isUtcTime(now.value))
  {
    SoundIndexes(lib, db);
    hide Sound, Clashes, RevokeRow, NoComma, FindSerial, SerialText, MarksRow, SerialText;
    var i := FindSerial(db.rows, SerialText(c.serial), 0);
    if i < |db.rows| {
      RevokeRowSound(lib, db, i, NameOf(c), t, arg, now);
    } else if Adds(db, c) {
      var added := Append(db, ValidRow(c));
      AppendSound(lib, db, c);
      ValidNotMarked(lib, ValidRow(c), NameOf(c), t, arg, now);
      if lib.isTime(c.notAfter) {
        RevokeRowSound(lib, added, |db.rows|, NameOf(c), t, arg, now);
      } else {
        BadTimeStays(lib, added, |db.rows|, NameOf(c), t, arg, now);
      }
    }
  }

  lemma ValidNotMarked(lib: Asn1, r: Row, name: string, t: RevocationType, arg: string, now: Option<string>)
    ensures t.RevValid? ==> !MarksRow(lib, r, name, t, arg, now)
  {
  }

  lemma BadTimeStays(lib: Asn1, db: Db, i: nat, name: string, t: RevocationType, arg: string, now: Option<string>)
    requires i < |db.rows| && !lib.isTime(db.rows[i].expDate)
    ensures !Sound(lib, RevokeRow(lib, db, i, name, t, arg, now).0)
  {
    hide RevocationText, SerialOk;
    assert !RowOk(lib, RevokeRow(lib, db, i, name, t, arg, now).0.rows[i]);
  }

  /** do_updatedb: the rows up to the first unreadable time are marked. */
  function Updated(lib: Asn1, db: Db, expired: string -> bool): Db {
    db.(rows := AgedRows(db.rows, expired, FirstUnreadable(lib, db.rows, 0)))
  }

  lemma UpdateKeepsSound(lib: Asn1, db: Db, expired: string -> bool)
    requires Sound(lib, db)
    ensures Sound(lib, Updated(lib, db, expired))
    ensures FirstUnreadable(lib, db.rows, 0) == |db.rows|
  {
    hide SerialOk, SameSerial, Unpacked;
    var rows := Updated(lib, db, expired).rows;
    forall i | 0 <= i < |rows|
      ensures rows[i].serial == db.rows[i].serial && rows[i].name == db.rows[i].name && RowOk(lib, rows[i])
    {
      assert RowOk(lib, db.rows[i]);
    }
    assert SerialsDistinct(rows) && NamesIndexed(Updated(lib, db, expired));
  }

  lemma RestartKeepsSound(lib: Asn1, db: Db)
    requires Sound(lib, db)
    ensures Sound(lib, Restarted(db))
  {
  }

  // ----- Whole runs

  datatype Operation =
    | Insert(c: Certificate, confirmed: bool)
    | Revoke(c: Certificate, t: RevocationType, arg: string, now: Option<string>)
    | UpdateAll(expired: string -> bool)
    | Restart

  function Perform(lib: Asn1, db: Db, o: Operation): Db
    requires |db.indexed| == |db.rows|
  {
    match o
    case Insert(c, confirmed) => Inserted(db, c, confirmed).0
    case Revoke(c, t, arg, now) => Revoked(lib, db, c, t, arg, now).0
    case UpdateAll(expired) => Updated(lib, db, expired)
    case Restart => Restarted(db)
  }

  /** Certificates carry times, and the clock gives UTCTimes, as it does from 1950 to 2049. */
  ghost predicate Proper(lib: Asn1, o: Operation) {
    match o
    case Insert(c, _) => lib.isTime(c.notAfter)
    case Revoke(c, _, _, now) => lib.isTime(c.notAfter) && (now.Some? ==> NoComma(now.value) && lib.isUtcTime(now.value))
    case _ => true
  }

  /** A row changes only from valid to expired, or from not revoked to revoked, and in nothing else. */
  ghost predicate Moves(r: Row, s: Row) {
    || s == r
    || (r.kind == 'V' && s == r.(kind := 'E'))
    || (r.kind != 'R' && s == r.(kind := 'R', revDate := s.revDate))
  }

  ghost predicate RowsMove(rows: seq<Row>, later: seq<Row>) {
    |rows| <= |later| && forall i :: 0 <= i < |rows| ==> Moves(rows[i], later[i])
  }

  /** The times that the clock gives have no comma in them. */
  ghost predicate PlainClock(o: Operation) {
    o.Revoke? && o.now.Some? ==> NoComma(o.now.value)
  }

  /** Whatever the operation stores, the next start-up check will accept. */
  ghost predicate Fitting(lib: Asn1, db: Db, o: Operation)
    requires |db.indexed| == |db.rows|
  {
    match o
    case Insert(c, confirmed) => confirmed && !Clashes(db, ValidRow(c)) ==> lib.isTime(c.notAfter)
    case Revoke(c, t, arg, now) =>
      (Adds(db, c) ==> lib.isTime(c.notAfter)) && (Marks(lib, db, c, t, arg, now) ==> lib.isUtcTime(now.value))
    case _ => true
  }

  lemma PerformKeepsSound(lib: Asn1, db: Db, o: Operation)
    requires Sound(lib, db) && PlainClock(o)
    ensures |db.indexed| == |db.rows| && (Sound(lib, Perform(lib, db, o)) <==> Fitting(lib, db, o))
  {
    SoundIndexes(lib, db);
    hide Sound, Inserted, Revoked, Updated, Restarted, Clashes, Adds, Marks, NoComma;
    match o
    case Insert(c, confirmed) => InsertKeepsSound(lib, db, c, confirmed);
    case Revoke(c, t, arg, now) => RevokeKeepsSound(lib, db, c, t, arg, now);
    case UpdateAll(expired) => UpdateKeepsSound(lib, db, expired);
    case Restart => RestartKeepsSound(lib, db);
  }

  lemma PerformMoves(lib: Asn1, db: Db, o: Operation)
    requires |db.indexed| == |db.rows|
    ensures |Perform(lib, db, o).indexed| == |Perform(lib, db, o).rows|
    ensures RowsMove(db.rows, Perform(lib, db, o).rows)
  {
    hide RevocationText, Clashes, FindSerial, RevokeRow, ValidRow;
    if o.Revoke? {
      var i, a := FindSerial(db.rows, SerialText(o.c.serial), 0), Append(db, ValidRow(o.c));
      if i < |db.rows| { RevokeRowMoves(lib, db, i, NameOf(o.c), o.t, o.arg, o.now); }
      else { RevokeRowMoves(lib, a, |db.rows|, NameOf(o.c), o.t, o.arg, o.now); }
    }
  }

  lemma RevokeRowMoves(lib: Asn1, db: Db, i: nat, name: string, t: RevocationType, arg: string, now: Option<string>)
    requires |db.indexed| == |db.rows| && i < |db.rows|
    ensures var after := RevokeRow(lib, db, i, name, t, arg, now).0;
            |after.rows| == |db.rows| && after.indexed == db.indexed
            && forall j :: 0 <= j < |db.rows| ==> (if j == i then Moves(db.rows[j], after.rows[j]) else after.rows[j] == db.rows[j])
  {
    hide RevocationText;
  }

  function Run(lib: Asn1, db: Db, os: seq<Operation>): Db
    requires |db.indexed| == |db.rows|
    decreases |os|
  {
    if os == [] then db
    else
      PerformMoves(lib, db, os[0]);
      Run(lib, Perform(lib, db, os[0]), os[1..])
  }

  /** At every moment of the run a start-up check would accept the database. */
  ghost predicate SoundThroughout(lib: Asn1, db: Db, os: seq<Operation>)
    requires |db.indexed| == |db.rows|
    decreases |os|
  {
    if os == [] then Sound(lib, db)
    else
      PerformMoves(lib, db, os[0]);
      Sound(lib, db) && SoundThroughout(lib, Perform(lib, db, os[0]), os[1..])
  }

  ghost predicate FittingThroughout(lib: Asn1, db: Db, os: seq<Operation>)
    requires |db.indexed| == |db.rows|
    decreases |os|
  {
    if os == [] then true
    else
      PerformMoves(lib, db, os[0]);
      Fitting(lib, db, os[0]) && FittingThroughout(lib, Perform(lib, db, os[0]), os[1..])
  }

  /** A run from a sound database stays sound if and only if every operation of it stores fitting times. */
  lemma {:induction false} RunSoundIff(lib: Asn1, db: Db, os: seq<Operation>)
    requires Sound(lib, db) && |db.indexed| == |db.rows| && forall i :: 0 <= i < |os| ==> PlainClock(os[i])
    ensures SoundThroughout(lib, db, os) <==> FittingThroughout(lib, db, os)
    ensures SoundThroughout(lib, db, os) ==> Sound(lib, Run(lib, db, os))
    decreases |os|
  {
    if os != [] {
      hide Sound, Perform, PlainClock, Fitting;
      PerformKeepsSound(lib, db, os[0]);
      PerformMoves(lib, db, os[0]);
      var next := Perform(lib, db, os[0]);
      if Sound(lib, next) { RunSoundIff(lib, next, os[1..]); }
      assert SoundThroughout(lib, next, os[1..]) ==> Sound(lib, next);
    }
  }

  /** Every run with proper times from a sound database stays sound: the next start-up check accepts what was written. */
  lemma {:induction false} RunKeepsSound(lib: Asn1, db: Db, os: seq<Operation>)
    requires Sound(lib, db) && forall i :: 0 <= i < |os| ==> Proper(lib, os[i])
    ensures Sound(lib, Run(lib, db, os))
    decreases |os|
  {
    if os != [] {
      assert Proper(lib, os[0]);
      SoundIndexes(lib, db);
      ProperFits(lib, db, os[0]);
      hide Sound, Proper, Perform, Fitting, PlainClock;
      PerformKeepsSound(lib, db, os[0]);
      PerformMoves(lib, db, os[0]);
      RunKeepsSound(lib, Perform(lib, db, os[0]), os[1..]);
    }
  }

  lemma ProperFits(lib: Asn1, db: Db, o: Operation)
    requires |db.indexed| == |db.rows| && Proper(lib, o)
    ensures PlainClock(o) && Fitting(lib, db, o)
  {
    hide Clashes, Adds, FindSerial, SerialText, Recorded, NoComma;
  }

  lemma SoundIndexes(lib: Asn1, db: Db)
    requires Sound(lib, db)
    ensures |db.indexed| == |db.rows|
  {
  }

  /** Over a whole run no row is lost, changes its certificate or returns from being revoked. */
  ghost predicate Descends(r: Row, t: Row) {
    && t.serial == r.serial && t.name == r.name && t.expDate == r.expDate && t.file == r.file
    && (t.kind == r.kind || (r.kind == 'V' && t.kind == 'E') || (r.kind != 'R' && t.kind == 'R'))
    && (r.kind == 'R' ==> t == r)
  }

  lemma {:induction false} RunDescends(lib: Asn1, db: Db, os: seq<Operation>, i: nat)
    requires |db.indexed| == |db.rows| && i < |db.rows|
    ensures i < |Run(lib, db, os).rows| && Descends(db.rows[i], Run(lib, db, os).rows[i])
    decreases |os|
  {
    if os != [] {
      hide Perform;
      PerformMoves(lib, db, os[0]);
      var next := Perform(lib, db, os[0]);
      assert Moves(db.rows[i], next.rows[i]);
      RunDescends(lib, next, os[1..], i);
    }
  }
}
