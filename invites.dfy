/** The row-filtering pass of the program: the two allow-list variables are
    split on commas, then every sheet row is projected onto its working
    fields (column 2, column 1, formatted column 5) and fed through two
    independent filters that accumulate the invited phone numbers and the
    invited e-mail addresses. The first malformed row aborts the run. */
module Invites {
  import opened Wrappers
  import opened Text
  import opened Phone

  /** One sheet row: its cells in column order; the API drops trailing
      empty cells, so rows vary in length. */
  type Row = seq<string>

  /** The per-row working fields, in the order the program builds them. */
  datatype Fields = Fields(id: string, mail: string, phone: string)

  /** Why a row aborts the run. */
  datatype Fault =
    | RowTooShort(cells: nat)   // a cell index up to 5 is out of bounds
    | PhoneTooShort(raw: string) // the splice slices past the value's end

  /** The row, counted from 0, at which the run aborted, and why. */
  datatype Failure = Failure(row: nat, fault: Fault)

  /** The two accumulated output lists. */
  datatype Invites = Invites(mails: seq<string>, numbers: seq<string>)

  /** Substring an e-mail address must hold to be invited. */
  const Domain: string := "hanyang"

  /** The working fields of one row, or the fault that aborts the run. */
  function ProjectRow(row: Row): (r: Result<Fields, Fault>)
    ensures r.Ok? <==> 6 <= |row| && (!NeedsSplice(row[5]) || 7 <= |row[5]|)
    ensures r.Ok? ==> r.value.id == row[2] && r.value.mail == row[1]
    ensures r.Ok? ==> Some(r.value.phone) == FormatPhone(row[5])
    ensures |row| < 6 ==> r == Err(RowTooShort(|row|))
    ensures 6 <= |row| && NeedsSplice(row[5]) && |row[5]| < 7 ==> r == Err(PhoneTooShort(row[5]))
  {
    if |row| < 6 then Err(RowTooShort(|row|))
    else
      match FormatPhone(row[5])
      case None => Err(PhoneTooShort(row[5]))
      case Some(phone) => Ok(Fields(row[2], row[1], phone))
  }

  /** No row of `rows` aborts the run. */
  predicate Processable(rows: seq<Row>)
  {
    forall k :: 0 <= k < |rows| ==> ProjectRow(rows[k]).Ok?
  }

  /** The working fields of every row of a run that does not abort. */
  function Project(rows: seq<Row>): (fs: seq<Fields>)
    requires Processable(rows)
    ensures |fs| == |rows|
    ensures forall k :: 0 <= k < |rows| ==> ProjectRow(rows[k]) == Ok(fs[k])
    decreases |rows|
  {
    if rows == [] then []
    else
      var n := |rows| - 1;
      var init := rows[..n];
      assert forall k :: 0 <= k < n ==> init[k] == rows[k];
      Project(init) + [ProjectRow(rows[n]).value]
  }

  /** `Project` is the only sequence of fields that matches the rows one
      for one. */
  lemma ProjectExactly(rows: seq<Row>, fs: seq<Fields>)
    requires |rows| == |fs| && forall k :: 0 <= k < |rows| ==> ProjectRow(rows[k]) == Ok(fs[k])
    ensures Processable(rows) && Project(rows) == fs
  {
    var ps := Project(rows);
    assert forall k :: 0 <= k < |rows| ==> ProjectRow(rows[k]).value == ps[k] == fs[k];
  }

  /** A row's phone is invited when its column 2 is on the phone list. */
  predicate NumberInvited(id: string, targets: seq<string>)
  {
    id in targets
  }

  /** A row's address is invited when it is not on the mail list and
      holds the organisation's domain. */
  predicate MailInvited(mail: string, targets: seq<string>)
  {
    mail !in targets && Contains(mail, Domain)
  }

  /** The invited phone numbers, in row order. */
  function InviteNumbers(fs: seq<Fields>, targets: seq<string>): (r: seq<string>)
    ensures forall x :: x in r ==> exists f :: f in fs && NumberInvited(f.id, targets) && x == f.phone
    decreases |fs|
  {
    if fs == [] then []
    else
      var f := fs[|fs| - 1];
      assert forall g :: g in fs[..|fs| - 1] ==> g in fs;
      InviteNumbers(fs[..|fs| - 1], targets) + if NumberInvited(f.id, targets) then [f.phone] else []
  }

  /** The invited e-mail addresses, in row order. */
  function InviteMails(fs: seq<Fields>, targets: seq<string>): (r: seq<string>)
    ensures forall x :: x in r ==> exists f :: f in fs && x == f.mail
    decreases |fs|
  {
    if fs == [] then []
    else
      var f := fs[|fs| - 1];
      assert forall g :: g in fs[..|fs| - 1] ==> g in fs;
      InviteMails(fs[..|fs| - 1], targets) + if MailInvited(f.mail, targets) then [f.mail] else []
  }

  /** One more row adds only its own phone, if any, to the end of the list. */
  lemma NumbersAppend(fs: seq<Fields>, f: Fields, phones: seq<string>)
    ensures InviteNumbers(fs + [f], phones)
            == InviteNumbers(fs, phones) + (if NumberInvited(f.id, phones) then [f.phone] else [])
  {
    assert (fs + [f])[..|fs|] == fs;
  }

  /** One more row adds only its own address, if any, to the end of the list. */
  lemma MailsAppend(fs: seq<Fields>, f: Fields, mails: seq<string>)
    ensures InviteMails(fs + [f], mails)
            == InviteMails(fs, mails) + (if MailInvited(f.mail, mails) then [f.mail] else [])
  {
    assert (fs + [f])[..|fs|] == fs;
  }

  /** The whole pass: split both allow-list variables on commas, then walk
      the rows once, in order, accumulating both lists. Any faulty row
      aborts with no output at all. */
  method FilterSheet(addedPhone: string, addedMail: string, rows: seq<Row>)
    returns (r: Result<Invites, Failure>)
    ensures r.Ok? <==> Processable(rows)
    ensures r.Ok? ==> r.value.numbers == InviteNumbers(Project(rows), Split(addedPhone, ','))
    ensures r.Ok? ==> r.value.mails == InviteMails(Project(rows), Split(addedMail, ','))
    ensures r.Err? ==> r.error.row < |rows| && Processable(rows[..r.error.row])
    ensures r.Err? ==> ProjectRow(rows[r.error.row]) == Err(r.error.fault)
  {
    var targetNumber := Split(addedPhone, ',');
    var targetMails := Split(addedMail, ',');
    var inviteNumber: seq<string> := [];
    var inviteMails: seq<string> := [];
    ghost var done: seq<Fields> := [];
    var i := 0;
    while i < |rows|
      invariant 0 <= i <= |rows| && |done| == i
      invariant forall k :: 0 <= k < i ==> ProjectRow(rows[k]) == Ok(done[k])
      invariant inviteNumber == InviteNumbers(done, targetNumber)
      invariant inviteMails == InviteMails(done, targetMails)
    {
      var row := rows[i];
      if |row| < 6 {
        ProjectExactly(rows[..i], done);
        return Err(Failure(i, RowTooShort(|row|)));
      }
      var phone := FormatPhone(row[5]);
      if phone.None? {
        ProjectExactly(rows[..i], done);
        return Err(Failure(i, PhoneTooShort(row[5])));
      }
      var fields := Fields(row[2], row[1], phone.value);
      NumbersAppend(done, fields, targetNumber);
      MailsAppend(done, fields, targetMails);
      if fields.id in targetNumber {
        inviteNumber := inviteNumber + [fields.phone];
      }
      if fields.mail !in targetMails && Contains(fields.mail, Domain) {
        inviteMails := inviteMails + [fields.mail];
      }
      done := done + [fields];
      i := i + 1;
    }
    ProjectExactly(rows, done);
    r := Ok(Invites(inviteMails, inviteNumber));
  }

  /** Indices of the rows whose phone is invited, ascending. */
  function NumberRows(fs: seq<Fields>, targets: seq<string>): (ks: seq<nat>)
    ensures forall j :: 0 <= j < |ks| ==> ks[j] < |fs|
    ensures forall j, j' :: 0 <= j < j' < |ks| ==> ks[j] < ks[j']
    ensures forall k :: 0 <= k < |fs| ==> (k in ks <==> NumberInvited(fs[k].id, targets))
    decreases |fs|
  {
    if fs == [] then []
    else
      var n := |fs| - 1;
      NumberRows(fs[..n], targets) + if NumberInvited(fs[n].id, targets) then [n] else []
  }

  /** Indices of the rows whose address is invited, ascending. */
  function MailRows(fs: seq<Fields>, targets: seq<string>): (ks: seq<nat>)
    ensures forall j :: 0 <= j < |ks| ==> ks[j] < |fs|
    ensures forall j, j' :: 0 <= j < j' < |ks| ==> ks[j] < ks[j']
    ensures forall k :: 0 <= k < |fs| ==> (k in ks <==> MailInvited(fs[k].mail, targets))
    decreases |fs|
  {
    if fs == [] then []
    else
      var n := |fs| - 1;
      MailRows(fs[..n], targets) + if MailInvited(fs[n].mail, targets) then [n] else []
  }

  /** The invited numbers are the phones of exactly the rows whose column 2
      is on the list, in row order, duplicates kept. */
  lemma {:induction false} NumbersAreSelectedRows(fs: seq<Fields>, targets: seq<string>)
    ensures |InviteNumbers(fs, targets)| == |NumberRows(fs, targets)|
    ensures forall j :: 0 <= j < |NumberRows(fs, targets)| ==>
      InviteNumbers(fs, targets)[j] == fs[NumberRows(fs, targets)[j]].phone
    decreases |fs|
  {
    if fs != [] {
      var n := |fs| - 1;
      var init := fs[..n];
      NumbersAreSelectedRows(init, targets);
      var out, ks := InviteNumbers(fs, targets), NumberRows(fs, targets);
      var out0, ks0 := InviteNumbers(init, targets), NumberRows(init, targets);
      if NumberInvited(fs[n].id, targets) {
        assert out == out0 + [fs[n].phone] && ks == ks0 + [n];
      } else {
        assert out == out0 && ks == ks0;
      }
      forall j | 0 <= j < |ks|
        ensures out[j] == fs[ks[j]].phone
      {
        if j < |ks0| {
          assert ks[j] == ks0[j] && out[j] == out0[j];
          assert init[ks0[j]] == fs[ks0[j]];
        }
      }
    }
  }

  /** The invited addresses are the addresses of exactly the rows that pass
      the mail filter, in row order, duplicates kept. */
  lemma {:induction false} MailsAreSelectedRows(fs: seq<Fields>, targets: seq<string>)
    ensures |InviteMails(fs, targets)| == |MailRows(fs, targets)|
    ensures forall j :: 0 <= j < |MailRows(fs, targets)| ==>
      InviteMails(fs, targets)[j] == fs[MailRows(fs, targets)[j]].mail
    decreases |fs|
  {
    if fs != [] {
      var n := |fs| - 1;
      var init := fs[..n];
      MailsAreSelectedRows(init, targets);
      var out, ks := InviteMails(fs, targets), MailRows(fs, targets);
      var out0, ks0 := InviteMails(init, targets), MailRows(init, targets);
      if MailInvited(fs[n].mail, targets) {
        assert out == out0 + [fs[n].mail] && ks == ks0 + [n];
      } else {
        assert out == out0 && ks == ks0;
      }
      forall j | 0 <= j < |ks|
        ensures out[j] == fs[ks[j]].mail
      {
        if j < |ks0| {
          assert ks[j] == ks0[j] && out[j] == out0[j];
          assert init[ks0[j]] == fs[ks0[j]];
        }
      }
    }
  }

  /** Neither list is longer than the sheet: each row adds at most one entry. */
  lemma {:induction false} InvitesBounded(fs: seq<Fields>, phones: seq<string>, mails: seq<string>)
    ensures |InviteNumbers(fs, phones)| <= |fs|
    ensures |InviteMails(fs, mails)| <= |fs|
    decreases |fs|
  {
    if fs != [] {
      InvitesBounded(fs[..|fs| - 1], phones, mails);
    }
  }

  /** Every invited address holds the domain and is not on the mail list. */
  lemma {:induction false} InvitedMailsQualify(fs: seq<Fields>, targets: seq<string>)
    ensures forall x :: x in InviteMails(fs, targets) ==> Contains(x, Domain) && x !in targets
  {
    MailsAreSelectedRows(fs, targets);
    var out, ks := InviteMails(fs, targets), MailRows(fs, targets);
    forall x | x in out
      ensures Contains(x, Domain) && x !in targets
    {
      var j :| 0 <= j < |out| && out[j] == x;
      assert MailInvited(fs[ks[j]].mail, targets);
    }
  }

  /** The mail list reads only the address field of each row. */
  lemma {:induction false} MailsReadOnlyAddress(fs: seq<Fields>, fs': seq<Fields>, targets: seq<string>)
    requires |fs| == |fs'| && forall k :: 0 <= k < |fs| ==> fs[k].mail == fs'[k].mail
    ensures InviteMails(fs, targets) == InviteMails(fs', targets)
    decreases |fs|
  {
    if fs != [] {
      var n := |fs| - 1;
      MailsReadOnlyAddress(fs[..n], fs'[..n], targets);
    }
  }

  /** The number list reads only the identifier and phone fields of each row. */
  lemma {:induction false} NumbersReadOnlyIdAndPhone(fs: seq<Fields>, fs': seq<Fields>, targets: seq<string>)
    requires |fs| == |fs'|
    requires forall k :: 0 <= k < |fs| ==> fs[k].id == fs'[k].id && fs[k].phone == fs'[k].phone
    ensures InviteNumbers(fs, targets) == InviteNumbers(fs', targets)
    decreases |fs|
  {
    if fs != [] {
      var n := |fs| - 1;
      NumbersReadOnlyIdAndPhone(fs[..n], fs'[..n], targets);
    }
  }

  /** Both sequences of rows agree on column `c`. */
  predicate SameColumn(rows: seq<Row>, rows': seq<Row>, c: nat)
  {
    |rows| == |rows'| &&
    forall k :: 0 <= k < |rows| ==> c < |rows[k]| && c < |rows'[k]| && rows[k][c] == rows'[k][c]
  }

  /** The mail filter looks at column 1 only: sheets that agree there give
      the same invited addresses, whatever their columns 2 and 5 hold. */
  lemma {:induction false} MailsIgnoreOtherColumns(rows: seq<Row>, rows': seq<Row>, targets: seq<string>)
    requires Processable(rows) && Processable(rows') && SameColumn(rows, rows', 1)
    ensures InviteMails(Project(rows), targets) == InviteMails(Project(rows'), targets)
  {
    MailsReadOnlyAddress(Project(rows), Project(rows'), targets);
  }

  /** The phone filter looks at columns 2 and 5 only: sheets that agree
      there give the same invited numbers, whatever their column 1 holds. */
  lemma {:induction false} NumbersIgnoreMailColumn(rows: seq<Row>, rows': seq<Row>, targets: seq<string>)
    requires Processable(rows) && Processable(rows')
    requires SameColumn(rows, rows', 2) && SameColumn(rows, rows', 5)
    ensures InviteNumbers(Project(rows), targets) == InviteNumbers(Project(rows'), targets)
  {
    var fs, fs' := Project(rows), Project(rows');
    forall k | 0 <= k < |fs|
      ensures fs[k].id == fs'[k].id && fs[k].phone == fs'[k].phone
    {
      assert ProjectRow(rows[k]) == Ok(fs[k]) && ProjectRow(rows'[k]) == Ok(fs'[k]);
    }
    NumbersReadOnlyIdAndPhone(fs, fs', targets);
  }

  /** With an empty phone variable the list is `[""]`, so a row whose
      column 2 is blank has its phone invited. */
  lemma {:induction false} EmptyPhoneListMatchesBlank(rows: seq<Row>, k: nat)
    requires Processable(rows) && k < |rows| && rows[k][2] == ""
    ensures k in NumberRows(Project(rows), Split("", ','))
  {
    SplitNoSeparator("", ',');
    assert ProjectRow(rows[k]) == Ok(Project(rows)[k]);
  }

  /** The mail filter on three addresses against a one-entry mail list:
      listed, unlisted in the domain, and outside the domain. */
  lemma MailFilterExamples()
    ensures !MailInvited("a@hanyang.ac.kr", ["a@hanyang.ac.kr"])
    ensures MailInvited("b@hanyang.ac.kr", ["a@hanyang.ac.kr"])
    ensures !MailInvited("c@other.com", ["a@hanyang.ac.kr"])
  {
    assert MatchAt("b@hanyang.ac.kr", Domain, 2);
    MissingCharExcludes("c@other.com", Domain, 2);
  }

  /** Two rows, one spliced and invited on both lists, one already
      hyphenated and invited on neither, with `ADDED_PHONE` = "2" and an
      empty `ADDED_MAIL`. */
  lemma TwoRowScenario(rows: seq<Row>, addedPhone: string, addedMail: string)
    requires rows == [["_", "x@hanyang.ac.kr", "2", "_", "_", "0101112222"],
                      ["_", "y@other.com", "9", "_", "_", "010-3334444"]]
    requires addedPhone == "2" && addedMail == ""
    ensures Processable(rows)
    ensures InviteNumbers(Project(rows), Split(addedPhone, ',')) == ["010-1112-222"]
    ensures InviteMails(Project(rows), Split(addedMail, ',')) == ["x@hanyang.ac.kr"]
  {
    var f1 := Fields("2", "x@hanyang.ac.kr", "010-1112-222");
    var f2 := Fields("9", "y@other.com", "010-3334444");
    ScenarioFields(rows[0], rows[1], f1, f2);
    ProjectExactly(rows, [f1, f2]);
    SplitNoSeparator(addedPhone, ',');
    SplitNoSeparator(addedMail, ',');
    ScenarioLists(f1, f2, Split(addedPhone, ','), Split(addedMail, ','));
  }

  /** The working fields of the scenario's two rows. */
  lemma ScenarioFields(first: Row, second: Row, f1: Fields, f2: Fields)
    requires first == ["_", "x@hanyang.ac.kr", "2", "_", "_", "0101112222"]
    requires second == ["_", "y@other.com", "9", "_", "_", "010-3334444"]
    requires f1 == Fields("2", "x@hanyang.ac.kr", "010-1112-222")
    requires f2 == Fields("9", "y@other.com", "010-3334444")
    ensures ProjectRow(first) == Ok(f1) && ProjectRow(second) == Ok(f2)
  {
    SpliceDigits(first[5], f1.phone);
    HyphenatedPassesThrough(second[5]);
  }

  /** The scenario's lists, computed from its working fields. */
  lemma ScenarioLists(f1: Fields, f2: Fields, phones: seq<string>, mails: seq<string>)
    requires f1 == Fields("2", "x@hanyang.ac.kr", "010-1112-222")
    requires f2 == Fields("9", "y@other.com", "010-3334444")
    requires phones == ["2"] && mails == [""]
    ensures InviteNumbers([f1, f2], phones) == [f1.phone]
    ensures InviteMails([f1, f2], mails) == [f1.mail]
  {
    ScenarioAddresses(f1.mail, f2.mail);
    TwoRowLists(f1, f2, phones, mails);
  }

  /** Only the first scenario address holds the domain. */
  lemma ScenarioAddresses(x: string, y: string)
    requires x == "x@hanyang.ac.kr" && y == "y@other.com"
    ensures Contains(x, Domain) && !Contains(y, Domain)
  {
    assert MatchAt(x, Domain, 2);
    MissingCharExcludes(y, Domain, 2);
  }

  /** Of two rows where only the first passes each filter, the lists hold
      just the first row's entries. */
  lemma TwoRowLists(f1: Fields, f2: Fields, phones: seq<string>, mails: seq<string>)
    requires NumberInvited(f1.id, phones) && !NumberInvited(f2.id, phones)
    requires MailInvited(f1.mail, mails) && !MailInvited(f2.mail, mails)
    ensures InviteNumbers([f1, f2], phones) == [f1.phone]
    ensures InviteMails([f1, f2], mails) == [f1.mail]
  {
    assert [] + [f1] == [f1];
    assert [f1] + [f2] == [f1, f2];
    NumbersAppend([], f1, phones);
    NumbersAppend([f1], f2, phones);
    MailsAppend([], f1, mails);
    MailsAppend([f1], f2, mails);
  }
}
