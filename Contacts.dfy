/**
 * The contact repository: queries and updates over the `contacts` table,
 * where every contact belongs to the user whose id is in its `user_id`.
 * The table is a sequence of rows in table order; the calling user is
 * given by its id.
 */
module Contacts {
  import opened Wrappers
  import opened Dates
  import opened Patterns
  import opened Sequences

  /** A row of the `contacts` table; `userId` is the nullable foreign key `user_id`. */
  datatype Contact = Contact(
    id: int,
    firstname: string,
    lastname: string,
    email: string,
    phoneNumber: string,
    dateOfBirth: Date,
    relationships: string,
    userId: Option<int>)

  /** The request body of a create or an update. */
  datatype ContactBody = ContactBody(
    firstname: string,
    lastname: string,
    phoneNumber: string,
    email: string,
    dateOfBirth: Date,
    relationships: string)

  /** `Contact.user_id == user.id`; a NULL `user_id` equals no id. */
  predicate OwnedBy(c: Contact, uid: int) {
    c.userId == Some(uid)
  }

  /** The primary key: no two rows share an id. */
  ghost predicate UniqueIds(rows: seq<Contact>) {
    forall i, j :: 0 <= i < |rows| && 0 <= j < |rows| && rows[i].id == rows[j].id ==> i == j
  }

  function Min(a: int, b: int): int { if a <= b then a else b }

  /** `db.query(Contact).filter(Contact.user_id == user.id)`. */
  function Owned(rows: seq<Contact>, uid: int): (r: seq<Contact>)
    ensures forall c :: c in r <==> c in rows && OwnedBy(c, uid)
    ensures forall c :: OwnedBy(c, uid) ==> multiset(r)[c] == multiset(rows)[c]
    ensures SubsequenceOf(r, rows)
  {
    Filter(rows, c => OwnedBy(c, uid))
  }

  /** `get_contacts`: the caller's contacts after the first `skip`, at most `limit` of them. */
  function GetContacts(rows: seq<Contact>, uid: int, skip: nat, limit: nat): (r: seq<Contact>)
    ensures var owned := Owned(rows, uid);
      && |r| == (if skip >= |owned| then 0 else Min(limit, |owned| - skip))
      && forall i :: 0 <= i < |r| ==> r[i] == owned[skip + i]
    ensures forall c :: c in r ==> c in rows && OwnedBy(c, uid)
  {
    var owned := Owned(rows, uid);
    var from := Min(skip, |owned|);
    owned[from..Min(from + limit, |owned|)]
  }

  predicate IsOwnedWithId(c: Contact, uid: int, cid: int) {
    c.id == cid && OwnedBy(c, uid)
  }

  /** The index of the first row with id `cid` that the caller owns. */
  function FindOwned(rows: seq<Contact>, uid: int, cid: int): (k: Option<nat>)
    ensures k.Some? ==> k.value < |rows| && IsOwnedWithId(rows[k.value], uid, cid)
    ensures k.Some? ==> forall j :: 0 <= j < k.value ==> !IsOwnedWithId(rows[j], uid, cid)
    ensures k.None? ==> forall j :: 0 <= j < |rows| ==> !IsOwnedWithId(rows[j], uid, cid)
  {
    FirstIndex(rows, (c: Contact) => IsOwnedWithId(c, uid, cid))
  }

  /** `get_contact`: the contact with that id, only if the caller owns it. */
  function GetContact(rows: seq<Contact>, uid: int, cid: int): (r: Option<Contact>)
    ensures r.Some? <==> exists c :: c in rows && IsOwnedWithId(c, uid, cid)
    ensures r.Some? ==> r.value in rows && r.value.id == cid && OwnedBy(r.value, uid)
    ensures r.Some? ==> exists k :: 0 <= k < |rows| && rows[k] == r.value && forall j :: 0 <= j < k ==> !IsOwnedWithId(rows[j], uid, cid)
  {
    match FindOwned(rows, uid, cid)
    case None => None
    case Some(k) => Some(rows[k])
  }

  /** With unique ids, the owned contact with that id is the one returned. */
  lemma GetContactFindsOwned(rows: seq<Contact>, uid: int, c: Contact)
    requires UniqueIds(rows) && c in rows && OwnedBy(c, uid)
    ensures GetContact(rows, uid, c.id) == Some(c)
  {
  }

  /** A contact with that id owned by someone else is not returned. */
  lemma GetContactHidesOthers(rows: seq<Contact>, uid: int, c: Contact)
    requires UniqueIds(rows) && c in rows && !OwnedBy(c, uid)
    ensures GetContact(rows, uid, c.id) == None
  {
  }

  function RemoveAt(rows: seq<Contact>, k: nat): seq<Contact>
    requires k < |rows|
  {
    rows[..k] + rows[k + 1..]
  }

  /** Removing one row of a table with unique ids keeps every other row and the key. */
  lemma RemoveAtKeepsOthers(rows: seq<Contact>, k: nat)
    requires UniqueIds(rows) && k < |rows|
    ensures forall c :: c in RemoveAt(rows, k) <==> c in rows && c.id != rows[k].id
    ensures UniqueIds(RemoveAt(rows, k))
  {
  }

  /** `update_contact`'s six assignments to the found record. */
  function ApplyBody(c: Contact, body: ContactBody): (r: Contact)
    ensures r.id == c.id && r.userId == c.userId && HasBody(r, body)
    ensures HasBody(c, body) ==> r == c
  {
    c.(firstname := body.firstname, lastname := body.lastname, phoneNumber := body.phoneNumber,
       email := body.email, dateOfBirth := body.dateOfBirth, relationships := body.relationships)
  }

  /** The fields of a contact that a body supplies. */
  predicate HasBody(c: Contact, body: ContactBody) {
    c.firstname == body.firstname && c.lastname == body.lastname && c.phoneNumber == body.phoneNumber
    && c.email == body.email && c.dateOfBirth == body.dateOfBirth && c.relationships == body.relationships
  }

  /** Updating one row in place keeps the key, the owner and every other row. */
  lemma ApplyBodyInPlace(rows: seq<Contact>, k: nat, body: ContactBody)
    requires UniqueIds(rows) && k < |rows|
    ensures var r := rows[k := ApplyBody(rows[k], body)];
      && UniqueIds(r)
      && r[k].id == rows[k].id && r[k].userId == rows[k].userId && HasBody(r[k], body)
      && (rows[k].userId.Some? ==> GetContact(r, rows[k].userId.value, rows[k].id) == Some(r[k]))
  {
  }

  // ---------------------------------------------------------------------
  // Upcoming birthdays

  /** The contact's birthday moved into `year`, as `date_of_birth.replace(year=year)`. */
  function MovedBirthday(c: Contact, year: int): Result<Date, DateError>
    requires MinYear <= year <= MaxYear
  {
    ReplaceYear(c.dateOfBirth, year)
  }

  /** The contacts of `cs` whose birthday this year lies in `today ..= end`, or the error of the first one that cannot be moved. */
  function Upcoming(cs: seq<Contact>, today: Date, end: Date): (r: Result<seq<Contact>, DateError>)
    ensures r.Ok? <==> forall c :: c in cs ==> MovedBirthday(c, today.year).Ok?
    ensures r.Err? ==> r.error == DayOutOfRange
    ensures r.Ok? ==> forall c :: c in r.value <==>
      c in cs && LessEq(today, MovedBirthday(c, today.year).value) && LessEq(MovedBirthday(c, today.year).value, end)
    ensures r.Ok? ==> forall c ::
      (c in cs && LessEq(today, MovedBirthday(c, today.year).value) && LessEq(MovedBirthday(c, today.year).value, end))
      ==> multiset(r.value)[c] == multiset(cs)[c]
    ensures r.Ok? ==> SubsequenceOf(r.value, cs)
    decreases |cs|
  {
    if cs == [] then Ok([])
    else
      var init, c := cs[..|cs| - 1], cs[|cs| - 1];
      assert cs == init + [c];
      match Upcoming(init, today, end)
      case Err(e) => Err(e)
      case Ok(acc) =>
        match MovedBirthday(c, today.year)
        case Err(e) => Err(e)
        case Ok(b) =>
          if LessEq(today, b) && LessEq(b, end) then
            assert (acc + [c])[..|acc|] == acc;
            Ok(acc + [c])
          else Ok(acc)
  }

  /** One more contact scanned: `Upcoming` keeps, drops or fails on it and keeps what came before. */
  lemma UpcomingStep(cs: seq<Contact>, i: nat, today: Date, end: Date)
    requires i < |cs| && Upcoming(cs[..i], today, end).Ok?
    ensures var b, prev := MovedBirthday(cs[i], today.year), Upcoming(cs[..i], today, end).value;
      && (b.Err? ==> Upcoming(cs[..i + 1], today, end) == Err(b.error))
      && (b.Ok? && LessEq(today, b.value) && LessEq(b.value, end) ==> Upcoming(cs[..i + 1], today, end) == Ok(prev + [cs[i]]))
      && (b.Ok? && !(LessEq(today, b.value) && LessEq(b.value, end)) ==> Upcoming(cs[..i + 1], today, end) == Ok(prev))
  {
    assert cs[..i + 1][..i] == cs[..i];
  }

  /** `get_birthdays`: `end_date` is computed first, then the caller's contacts are scanned in order. */
  function Birthdays(rows: seq<Contact>, uid: int, today: Date): (r: Result<seq<Contact>, DateError>)
    ensures r == Err(DateOverflow) <==> DayNumber(today) + 7 > DayNumber(MaxDate)
    ensures r.Ok? ==> forall c :: c in r.value ==> c in rows && OwnedBy(c, uid)
  {
    AddDaysOrdinal(today, 7);
    match AddDays(today, 7)
    case Err(e) => Err(e)
    case Ok(end) => Upcoming(Owned(rows, uid), today, end)
  }

  /** The days from `today` to the contact's birthday moved into today's year. */
  function DaysUntilBirthday(c: Contact, today: Date): int
    requires MovedBirthday(c, today.year).Ok?
  {
    DayNumber(MovedBirthday(c, today.year).value) - DayNumber(today)
  }

  /**
   * `get_birthdays` succeeds exactly when a week after today is a representable
   * date and none of the caller's contacts was born on 29 February while
   * today's year is a common year.
   */
  lemma BirthdaysSucceeds(rows: seq<Contact>, uid: int, today: Date)
    ensures Birthdays(rows, uid, today).Ok? <==>
      && DayNumber(today) + 7 <= DayNumber(MaxDate)
      && forall c :: c in rows && OwnedBy(c, uid) ==>
           !(c.dateOfBirth.month == 2 && c.dateOfBirth.day == 29 && !IsLeapYear(today.year))
  {
    AddDaysOrdinal(today, 7);
  }

  /**
   * On success, `get_birthdays` returns, in table order, exactly the caller's
   * contacts whose birthday in today's year is zero to seven days after today.
   */
  lemma BirthdaysWindow(rows: seq<Contact>, uid: int, today: Date)
    requires Birthdays(rows, uid, today).Ok?
    ensures SubsequenceOf(Birthdays(rows, uid, today).value, rows)
    ensures forall c :: c in Birthdays(rows, uid, today).value <==>
      c in rows && OwnedBy(c, uid) && MovedBirthday(c, today.year).Ok? && 0 <= DaysUntilBirthday(c, today) <= 7
    ensures forall c ::
      (c in rows && OwnedBy(c, uid) && MovedBirthday(c, today.year).Ok? && 0 <= DaysUntilBirthday(c, today) <= 7)
      ==> multiset(Birthdays(rows, uid, today).value)[c] == multiset(rows)[c]
  {
    var end := AddDays(today, 7).value;
    var r := Birthdays(rows, uid, today).value;
    SubsequenceTransitive(r, Owned(rows, uid), rows);
    forall c | c in Owned(rows, uid) ensures
      (LessEq(today, MovedBirthday(c, today.year).value) && LessEq(MovedBirthday(c, today.year).value, end))
      <==> 0 <= DaysUntilBirthday(c, today) <= 7
    {
      WindowInDays(today, 7, MovedBirthday(c, today.year).value);
    }
  }

  /**
   * Birthdays are only moved into today's year: every contact returned has
   * its birthday in today's year, and in the last week of December a birthday
   * in January is never returned.
   */
  lemma BirthdaysStayInYear(rows: seq<Contact>, uid: int, today: Date, c: Contact)
    requires Birthdays(rows, uid, today).Ok?
    ensures c in Birthdays(rows, uid, today).value ==> MovedBirthday(c, today.year).value.year == today.year
    ensures today.month == 12 && today.day >= 25 && c.dateOfBirth.month == 1 ==>
      c !in Birthdays(rows, uid, today).value
  {
  }

  /** `get_birthdays` as the source runs it: one pass over the caller's contacts. */
  method GetBirthdays(rows: seq<Contact>, uid: int, today: Date) returns (r: Result<seq<Contact>, DateError>)
    ensures r == Birthdays(rows, uid, today)
  {
    var contacts := Owned(rows, uid);
    var endDate;
    match AddDays(today, 7) {
      case Err(e) => return Err(e);
      case Ok(d) => endDate := d;
    }
    var nearest := [];
    for i := 0 to |contacts|
      invariant Upcoming(contacts[..i], today, endDate) == Ok(nearest)
    {
      UpcomingStep(contacts, i, today, endDate);
      var birthday := ReplaceYear(contacts[i].dateOfBirth, today.year);
      if birthday.Err? {
        assert contacts[i] in contacts;
        return Err(birthday.error);
      }
      if LessEq(today, birthday.value) && LessEq(birthday.value, endDate) {
        nearest := nearest + [contacts[i]];
      }
    }
    assert contacts[..|contacts|] == contacts;
    r := Ok(nearest);
  }

  // ---------------------------------------------------------------------
  // Birthdays across the new year

  /** A contact born on 2 January, owned by user 1. */
  function Carol(): Contact {
    Contact(2, "Carol", "Jones", "carol@example.net", "0987654321", Ymd(1990, 1, 2), "colleague", Some(1))
  }

  /**
   * As written, on 28 December a birthday on 2 January, five days later, is
   * not among the birthdays of the next seven days.
   */
  lemma BirthdaysMissNewYear()
    ensures AddDays(Ymd(2024, 12, 28), 5) == Ok(Ymd(2025, 1, 2))
    ensures Birthdays([Carol()], 1, Ymd(2024, 12, 28)).Ok?
    ensures Carol() !in Birthdays([Carol()], 1, Ymd(2024, 12, 28)).value
  {
  }

  /** The birthday moved into year `y` lies in `today ..= end`. */
  predicate InYearWindow(c: Contact, y: int, today: Date, end: Date)
    requires MinYear <= y <= MaxYear
  {
    match MovedBirthday(c, y)
    case Err(_) => false
    case Ok(b) => LessEq(today, b) && LessEq(b, end)
  }

  /**
   * The test `get_birthdays` evidently intends: the birthday moved into the
   * year of `today`, or into the year of `end` when the window reaches the
   * next year, lies in `today ..= end`. A 29 February birthday has no day in
   * a common year and is simply not due then.
   */
  predicate BirthdayInWindow(c: Contact, today: Date, end: Date) {
    InYearWindow(c, today.year, today, end) || InYearWindow(c, end.year, today, end)
  }

  /** One of the next `n` days, today included, carries the contact's birthday. */
  ghost predicate BirthdayInDays(c: Contact, today: Date, n: nat) {
    exists k :: 0 <= k <= n && AddDays(today, k).Ok?
      && AddDays(today, k).value.month == c.dateOfBirth.month && AddDays(today, k).value.day == c.dateOfBirth.day
  }

  /** `get_birthdays` corrected: the window may cross the new year, and 29 February raises nothing. */
  function NearBirthdays(rows: seq<Contact>, uid: int, today: Date): (r: Result<seq<Contact>, DateError>)
    ensures r.Err? <==> DayNumber(today) + 7 > DayNumber(MaxDate)
    ensures r.Err? ==> r.error == DateOverflow
    ensures r.Ok? ==> SubsequenceOf(r.value, rows)
  {
    AddDaysOrdinal(today, 7);
    match AddDays(today, 7)
    case Err(e) => Err(e)
    case Ok(end) =>
      var q := Owned(rows, uid);
      var r := Filter(q, (c: Contact) => BirthdayInWindow(c, today, end));
      SubsequenceTransitive(r, q, rows);
      Ok(r)
  }

  /**
   * The corrected search returns, in table order and as often as the table
   * holds them, exactly the caller's contacts whose birthday falls on one of
   * the next seven days, today included.
   */
  lemma NearBirthdaysIsNextWeek(rows: seq<Contact>, uid: int, today: Date, c: Contact)
    requires NearBirthdays(rows, uid, today).Ok?
    ensures c in NearBirthdays(rows, uid, today).value <==> c in rows && OwnedBy(c, uid) && BirthdayInDays(c, today, 7)
    ensures c in rows && OwnedBy(c, uid) && BirthdayInDays(c, today, 7) ==>
      multiset(NearBirthdays(rows, uid, today).value)[c] == multiset(rows)[c]
  {
    var end := AddDays(today, 7).value;
    WithinAYear(today, 7);
    AddDaysOrdinal(today, 7);
    if BirthdayInWindow(c, today, end) {
      var y := if InYearWindow(c, today.year, today, end) then today.year else end.year;
      var b := MovedBirthday(c, y).value;
      WindowInDays(today, 7, b);
      var k := DayNumber(b) - DayNumber(today);
      AddDaysOrdinal(today, k);
      DayNumberInjective(AddDays(today, k).value, b);
    }
    if BirthdayInDays(c, today, 7) {
      var k :| 0 <= k <= 7 && AddDays(today, k).Ok?
        && AddDays(today, k).value.month == c.dateOfBirth.month && AddDays(today, k).value.day == c.dateOfBirth.day;
      var d := AddDays(today, k).value;
      AddDaysOrdinal(today, k);
      WindowInDays(today, 7, d);
      LessEqIsDayOrder(today, d);
      LessEqIsDayOrder(d, end);
      assert MovedBirthday(c, d.year) == Ok(d);
    }
  }

  // ---------------------------------------------------------------------
  // Search

  /** Python's truthiness of an optional string argument: `None` and `""` impose no filter. */
  predicate Applies(term: Option<string>) {
    term.Some? && term.value != ""
  }

  /** `column.ilike(f"%{term}%")` when the term applies; the term is not escaped. */
  predicate MatchesTerm(field: string, term: Option<string>) {
    !Applies(term) || ILike(field, SubstringPattern(term.value))
  }

  /** `column.ilike(f"%{escape(term)}%")` when the term applies. */
  predicate MatchesEscaped(field: string, term: Option<string>) {
    !Applies(term) || ILike(field, SubstringPattern(Escape(term.value)))
  }

  /** The search as the term should be read: every character of the term literally. */
  predicate ContainsTerm(field: string, term: Option<string>) {
    !Applies(term) || Contains(Lower(field), Lower(term.value))
  }

  /** The caller's contact passes every filter of the search as written. */
  predicate Selected(c: Contact, uid: int, firstname: Option<string>, lastname: Option<string>, email: Option<string>) {
    OwnedBy(c, uid) && MatchesTerm(c.firstname, firstname) && MatchesTerm(c.lastname, lastname)
    && MatchesTerm(c.email, email)
  }

  /** The caller's contact passes every filter of the search with escaped terms. */
  predicate SelectedEscaped(c: Contact, uid: int, firstname: Option<string>, lastname: Option<string>,
                            email: Option<string>) {
    OwnedBy(c, uid) && MatchesEscaped(c.firstname, firstname) && MatchesEscaped(c.lastname, lastname)
    && MatchesEscaped(c.email, email)
  }

  /**
   * `find_contacts` as written: the caller's contacts, narrowed by each filter
   * that applies. The chain of filters is one filter by all the tests at once,
   * so every selected row is kept as often as the table holds it.
   */
  function FindContacts(rows: seq<Contact>, uid: int, firstname: Option<string>,
                        lastname: Option<string>, email: Option<string>): (r: seq<Contact>)
    ensures r == Filter(rows, (c: Contact) => Selected(c, uid, firstname, lastname, email))
    ensures forall c :: c in r <==> c in rows && Selected(c, uid, firstname, lastname, email)
    ensures forall c :: Selected(c, uid, firstname, lastname, email) ==> multiset(r)[c] == multiset(rows)[c]
    ensures SubsequenceOf(r, rows)
    ensures !Applies(firstname) && !Applies(lastname) && !Applies(email) ==> r == Owned(rows, uid)
  {
    var f0 := (c: Contact) => OwnedBy(c, uid);
    var f1 := (c: Contact) => MatchesTerm(c.firstname, firstname);
    var f2 := (c: Contact) => MatchesTerm(c.lastname, lastname);
    var f3 := (c: Contact) => MatchesTerm(c.email, email);
    var h1 := (c: Contact) => OwnedBy(c, uid) && MatchesTerm(c.firstname, firstname);
    var h2 := (c: Contact) => h1(c) && MatchesTerm(c.lastname, lastname);
    var h3 := (c: Contact) => Selected(c, uid, firstname, lastname, email);
    var q0 := Filter(rows, f0);
    var q1 := if Applies(firstname) then Filter(q0, f1) else q0;
    var q2 := if Applies(lastname) then Filter(q1, f2) else q1;
    var q3 := if Applies(email) then Filter(q2, f3) else q2;
    FilterWhen(rows, f0, Applies(firstname), f1, h1);
    FilterWhen(rows, h1, Applies(lastname), f2, h2);
    FilterWhen(rows, h2, Applies(email), f3, h3);
    q3
  }

  /** `find_contacts` with each term escaped before it is put into the pattern. */
  function FindContactsEscaped(rows: seq<Contact>, uid: int, firstname: Option<string>,
                               lastname: Option<string>, email: Option<string>): (r: seq<Contact>)
    ensures r == Filter(rows, (c: Contact) => SelectedEscaped(c, uid, firstname, lastname, email))
    ensures forall c :: c in r <==> c in rows && SelectedEscaped(c, uid, firstname, lastname, email)
    ensures forall c :: SelectedEscaped(c, uid, firstname, lastname, email) ==> multiset(r)[c] == multiset(rows)[c]
    ensures SubsequenceOf(r, rows)
  {
    var f0 := (c: Contact) => OwnedBy(c, uid);
    var f1 := (c: Contact) => MatchesEscaped(c.firstname, firstname);
    var f2 := (c: Contact) => MatchesEscaped(c.lastname, lastname);
    var f3 := (c: Contact) => MatchesEscaped(c.email, email);
    var h1 := (c: Contact) => OwnedBy(c, uid) && MatchesEscaped(c.firstname, firstname);
    var h2 := (c: Contact) => h1(c) && MatchesEscaped(c.lastname, lastname);
    var h3 := (c: Contact) => SelectedEscaped(c, uid, firstname, lastname, email);
    var q0 := Filter(rows, f0);
    var q1 := if Applies(firstname) then Filter(q0, f1) else q0;
    var q2 := if Applies(lastname) then Filter(q1, f2) else q1;
    var q3 := if Applies(email) then Filter(q2, f3) else q2;
    FilterWhen(rows, f0, Applies(firstname), f1, h1);
    FilterWhen(rows, h1, Applies(lastname), f2, h2);
    FilterWhen(rows, h2, Applies(email), f3, h3);
    q3
  }

  /**
   * With escaped terms the search keeps exactly the caller's contacts whose
   * fields contain every applying term, ignoring the case of A to Z.
   */
  lemma FindContactsEscapedIsSubstringSearch(rows: seq<Contact>, uid: int, firstname: Option<string>,
                                             lastname: Option<string>, email: Option<string>)
    ensures forall c :: c in FindContactsEscaped(rows, uid, firstname, lastname, email) <==>
      c in rows && OwnedBy(c, uid) && ContainsTerm(c.firstname, firstname)
      && ContainsTerm(c.lastname, lastname) && ContainsTerm(c.email, email)
  {
    forall field: string, term: Option<string> ensures MatchesEscaped(field, term) <==> ContainsTerm(field, term) {
      if Applies(term) { ILikeEscapedIsCaseInsensitiveContains(field, term.value); }
    }
  }

  /**
   * For terms without `%`, `_` or `\`, the search as written is the escaped
   * search, and so keeps exactly the contacts whose fields contain the terms.
   */
  lemma FindContactsWithoutMetaIsSubstringSearch(rows: seq<Contact>, uid: int, firstname: Option<string>,
                                                 lastname: Option<string>, email: Option<string>)
    requires Applies(firstname) ==> NoMeta(firstname.value)
    requires Applies(lastname) ==> NoMeta(lastname.value)
    requires Applies(email) ==> NoMeta(email.value)
    ensures FindContacts(rows, uid, firstname, lastname, email)
         == FindContactsEscaped(rows, uid, firstname, lastname, email)
    ensures forall c :: c in FindContacts(rows, uid, firstname, lastname, email) <==>
      c in rows && OwnedBy(c, uid) && ContainsTerm(c.firstname, firstname)
      && ContainsTerm(c.lastname, lastname) && ContainsTerm(c.email, email)
  {
    FilterCongruent(rows, (c: Contact) => Selected(c, uid, firstname, lastname, email),
                    (c: Contact) => SelectedEscaped(c, uid, firstname, lastname, email));
    FindContactsEscapedIsSubstringSearch(rows, uid, firstname, lastname, email);
  }

  /** A contact named "Bob", owned by user 1. */
  function Bob(): Contact {
    Contact(1, "Bob", "Smith", "bob@example.net", "0123456789", Ymd(2000, 7, 13), "friend", Some(1))
  }

  /**
   * As written, a first-name term `_` returns a contact named "Bob", whose
   * first name contains no underscore.
   */
  lemma FindContactsUnderscoreMatchesAnyName()
    ensures !ContainsTerm(Bob().firstname, Some("_"))
    ensures FindContacts([Bob()], 1, Some("_"), None, None) == [Bob()]
  {
    UnderscoreTermMatchesAnyCharacter();
    FilterSingleton(Bob(), (c: Contact) => OwnedBy(c, 1));
    var q0 := Owned([Bob()], 1);
    assert q0 == [Bob()];
    assert MatchesTerm(Bob().firstname, Some("_"));
    FilterSingleton(Bob(), (c: Contact) => MatchesTerm(c.firstname, Some("_")));
  }

  /** With the term escaped, the same search does not return "Bob". */
  lemma FindContactsEscapedUnderscoreIsLiteral()
    ensures Bob() !in FindContactsEscaped([Bob()], 1, Some("_"), None, None)
  {
    UnderscoreTermMatchesAnyCharacter();
    FindContactsEscapedIsSubstringSearch([Bob()], 1, Some("_"), None, None);
  }

  // ---------------------------------------------------------------------
  // The table

  /** The `contacts` table; `nextId` is the next value of the id sequence. */
  class ContactTable {
    var rows: seq<Contact>
    var nextId: int

    ghost predicate Valid()
      reads this
    {
      UniqueIds(rows) && forall i :: 0 <= i < |rows| ==> rows[i].id < nextId
    }

    constructor ()
      ensures Valid() && rows == [] && nextId == 1
    {
      rows := [];
      nextId := 1;
    }

    /** `create_contact`: a new row owned by the caller, with a fresh id and the body's fields. */
    method CreateContact(body: ContactBody, uid: int) returns (c: Contact)
      requires Valid()
      modifies this
      ensures Valid()
      ensures c.id == old(nextId) && nextId == old(nextId) + 1
      ensures forall d :: d in old(rows) ==> d.id != c.id
      ensures OwnedBy(c, uid) && HasBody(c, body)
      ensures rows == old(rows) + [c]
      ensures GetContact(rows, uid, c.id) == Some(c)
    {
      c := Contact(nextId, body.firstname, body.lastname, body.email, body.phoneNumber,
                   body.dateOfBirth, body.relationships, Some(uid));
      rows := rows + [c];
      nextId := nextId + 1;
      GetContactFindsOwned(rows, uid, c);
    }

    /** `remove_contact`: deletes and returns the caller's contact with that id, if there is one. */
    method RemoveContact(uid: int, cid: int) returns (r: Option<Contact>)
      requires Valid()
      modifies this
      ensures Valid() && nextId == old(nextId)
      ensures r == GetContact(old(rows), uid, cid)
      ensures r.None? ==> rows == old(rows)
      ensures r.Some? ==> rows == RemoveAt(old(rows), FindOwned(old(rows), uid, cid).value)
      ensures r.Some? ==> forall c :: c in rows <==> c in old(rows) && c.id != cid
      ensures GetContact(rows, uid, cid) == None
    {
      var k := FindOwned(rows, uid, cid);
      if k.None? {
        return None;
      }
      r := Some(rows[k.value]);
      RemoveAtKeepsOthers(rows, k.value);
      rows := RemoveAt(rows, k.value);
    }

    /** `update_contact`: overwrites the six body fields of the caller's contact with that id. */
    method UpdateContact(uid: int, cid: int, body: ContactBody) returns (r: Option<Contact>)
      requires Valid()
      modifies this
      ensures Valid() && nextId == old(nextId)
      ensures r.None? <==> GetContact(old(rows), uid, cid).None?
      ensures r.None? ==> rows == old(rows)
      ensures r.Some? ==> var k := FindOwned(old(rows), uid, cid).value;
        && rows == old(rows)[k := ApplyBody(old(rows)[k], body)]
        && r.value == rows[k]
      ensures r.Some? ==> r.value.id == cid && OwnedBy(r.value, uid) && HasBody(r.value, body)
      ensures r.Some? ==> GetContact(rows, uid, cid) == r
    {
      var k := FindOwned(rows, uid, cid);
      if k.None? {
        return None;
      }
      ApplyBodyInPlace(rows, k.value, body);
      rows := rows[k.value := ApplyBody(rows[k.value], body)];
      r := Some(rows[k.value]);
    }
  }
}
