/**
  The session and form logic of the Tkinter front end `BankingSystemGUI`:
  login with a bounded number of failed attempts, credential verification
  against the `User` table, the session-timeout check, logout, the checks the
  customer dialogs make before they write, and the way the account dialog
  reads a customer id back out of its combo-box entry.

  The database is a parameter: the `User` table as a map from user name to
  row, or `Unreachable` when the driver raises. Clock readings are whole
  seconds passed in as `now`.
 */
module BankingGui {
  import opened Wrappers
  import opened Strings
  import opened Security

  // ---------------------------------------------------------------------
  // Users and sessions

  /** The signed-in user, `current_user` in the source. */
  datatype Principal = Principal(id: int, username: string, role: string)

  /** A row of the `User` table: `UserID`, `Password` (the stored digest), `Role`. */
  datatype UserRow = UserRow(userId: int, passwordHash: string, role: string)

  /** The `User` table keyed by `Username`, or a driver that raises on every query. */
  datatype UserStore = Reachable(users: map<string, UserRow>) | Unreachable

  /** The user name exists and the salted digest of the password matches the stored one. */
  predicate Authenticates(store: UserStore, username: string, password: string,
                          sha256: string -> string, salt: string)
  {
    && store.Reachable?
    && username in store.users
    && store.users[username].passwordHash == HashPassword(sha256, salt, password)
  }

  /** How a press of the Login button ends. */
  datatype LoginOutcome =
    | MissingCredentials  // "Please enter both username and password"
    | TooManyAttempts     // "Too many login attempts. Please try again later."
    | LoggedIn            // the main menu is shown
    | InvalidCredentials  // "Invalid username or password"

  class BankingSystemGui {
    var currentUser: Option<Principal>
    var lastActivity: int
    var loginAttempts: nat
    const salt: string
    const sha256: string -> string

    /** Failed attempts are counted up to the limit and never past it. */
    ghost predicate Valid()
      reads this
    {
      loginAttempts <= MaxLoginAttempts
    }

    /** A fresh window: nobody signed in, no failed attempt, activity stamped now. */
    constructor (now: int, salt: string, sha256: string -> string)
      ensures Valid()
      ensures currentUser == None && lastActivity == now && loginAttempts == 0
      ensures this.salt == salt && this.sha256 == sha256
    {
      currentUser := None;
      lastActivity := now;
      loginAttempts := 0;
      this.salt := salt;
      this.sha256 := sha256;
    }

    /**
      `verify_credentials`: looks the user up and compares digests; on a
      match the user becomes the current principal, otherwise (including a
      driver error) nothing changes.
     */
    method VerifyCredentials(username: string, password: string, store: UserStore)
      returns (ok: bool)
      modifies this`currentUser
      ensures ok <==> Authenticates(store, username, password, sha256, salt)
      ensures ok ==> currentUser == Some(Principal(store.users[username].userId, username,
                                                   store.users[username].role))
      ensures !ok ==> currentUser == old(currentUser)
    {
      match store
      case Unreachable =>
        ok := false;
      case Reachable(users) =>
        if username in users && users[username].passwordHash == HashPassword(sha256, salt, password) {
          var row := users[username];
          currentUser := Some(Principal(row.userId, username, row.role));
          ok := true;
        } else {
          ok := false;
        }
    }

    /**
      `login`: the user name is sanitised, both fields must be non-empty, the
      attempt limit is checked before the credentials, a success resets the
      counter and stamps the activity time, a failure counts one attempt.
     */
    method Login(usernameInput: string, passwordInput: string, store: UserStore, now: int)
      returns (outcome: LoginOutcome)
      requires Valid()
      modifies this
      ensures Valid()
      ensures outcome == MissingCredentials <==> Sanitize(usernameInput) == [] || passwordInput == []
      ensures outcome == TooManyAttempts <==>
                && Sanitize(usernameInput) != [] && passwordInput != []
                && old(loginAttempts) >= MaxLoginAttempts
      ensures outcome == LoggedIn <==>
                && Sanitize(usernameInput) != [] && passwordInput != []
                && old(loginAttempts) < MaxLoginAttempts
                && Authenticates(store, Sanitize(usernameInput), passwordInput, sha256, salt)
      ensures outcome in {MissingCredentials, TooManyAttempts} ==>
                && currentUser == old(currentUser) && lastActivity == old(lastActivity)
                && loginAttempts == old(loginAttempts)
      ensures outcome == LoggedIn ==>
                && loginAttempts == 0 && lastActivity == now
                && var name := Sanitize(usernameInput);
                   currentUser == Some(Principal(store.users[name].userId, name, store.users[name].role))
      ensures outcome == InvalidCredentials ==>
                && loginAttempts == old(loginAttempts) + 1
                && currentUser == old(currentUser) && lastActivity == old(lastActivity)
    {
      var username := Sanitize(usernameInput);
      if username == [] || passwordInput == [] {
        return MissingCredentials;
      }
      if loginAttempts >= MaxLoginAttempts {
        return TooManyAttempts;
      }
      var ok := VerifyCredentials(username, passwordInput, store);
      if ok {
        lastActivity := now;
        loginAttempts := 0;
        outcome := LoggedIn;
      } else {
        loginAttempts := loginAttempts + 1;
        outcome := InvalidCredentials;
      }
    }

    /**
      `check_session`: an expired session is reported and the login screen
      shown, but the principal and the activity time are left as they were;
      an active session has its activity time refreshed.
     */
    method CheckSession(now: int) returns (active: bool)
      requires Valid()
      modifies this`lastActivity
      ensures Valid()
      ensures active <==> !SessionTimedOut(old(lastActivity), now)
      ensures active ==> lastActivity == now
      ensures !active ==> lastActivity == old(lastActivity)
    {
      if SessionTimedOut(lastActivity, now) {
        return false;
      }
      lastActivity := now;
      return true;
    }

    /** `logout`: forgets the principal and stamps the activity time. */
    method Logout(now: int)
      requires Valid()
      modifies this`currentUser, this`lastActivity
      ensures Valid()
      ensures currentUser == None && lastActivity == now
    {
      currentUser := None;
      lastActivity := now;
    }
  }

  /**
    Three rejected attempts lock the window: a fourth attempt is refused even
    with the right password, since the limit is checked first.
   */
  method LockedAfterThreeFailures(store: UserStore, username: string, wrong: string, right: string,
                                  salt: string, sha256: string -> string, now: int)
    returns (outcome: LoginOutcome)
    requires Sanitize(username) != [] && wrong != [] && right != []
    requires !Authenticates(store, Sanitize(username), wrong, sha256, salt)
    ensures outcome == TooManyAttempts
  {
    var gui := new BankingSystemGui(now, salt, sha256);
    var first := gui.Login(username, wrong, store, now);
    var second := gui.Login(username, wrong, store, now + 1);
    var third := gui.Login(username, wrong, store, now + 2);
    assert gui.loginAttempts == 3;
    outcome := gui.Login(username, right, store, now + 3);
  }

  /**
    A session left idle past the timeout is reported expired, yet the
    signed-in principal is still recorded afterwards.
   */
  method ExpiredSessionKeepsPrincipal(store: UserStore, username: string, password: string,
                                      salt: string, sha256: string -> string, now: int)
    returns (active: bool, user: Option<Principal>)
    requires Sanitize(username) != [] && password != []
    requires Authenticates(store, Sanitize(username), password, sha256, salt)
    ensures !active && user.Some? && user.value.username == Sanitize(username)
  {
    var gui := new BankingSystemGui(now, salt, sha256);
    var outcome := gui.Login(username, password, store, now);
    active := gui.CheckSession(now + SessionTimeoutSeconds + 1);
    user := gui.currentUser;
  }

  /**
    `hash_password` is all the comparison sees: with a collision-free digest,
    the only password that authenticates a user is the one whose digest was stored.
   */
  lemma OnlyEnrolledPasswordAuthenticates(store: UserStore, username: string, enrolled: string,
                                          attempt: string, sha256: string -> string, salt: string)
    requires forall x, y :: sha256(x) == sha256(y) ==> x == y
    requires store.Reachable? && username in store.users
    requires store.users[username].passwordHash == HashPassword(sha256, salt, enrolled)
    ensures Authenticates(store, username, attempt, sha256, salt) <==> attempt == enrolled
  {
    if Authenticates(store, username, attempt, sha256, salt) {
      assert attempt + salt == enrolled + salt;
      assert attempt == (attempt + salt)[..|attempt|];
      assert enrolled == (enrolled + salt)[..|enrolled|];
    }
  }

  // ---------------------------------------------------------------------
  // The customer dialogs' Save buttons

  datatype FormError =
    | AllFieldsRequired   // "All fields are required"
    | InvalidEmailFormat  // "Invalid email format"
    | InvalidPhoneFormat  // "Invalid phone number format"

  /** The parameterised statement a Save button issues; values are bound, not spliced. */
  datatype CustomerStatement =
    | InsertCustomer(name: string, email: string, phone: string)
    | UpdateCustomer(name: string, email: string, phone: string, customerId: int)

  datatype CustomerSave = Refused(error: FormError) | Issued(statement: CustomerStatement)

  /**
    The three checks both dialogs make on the raw field values, reporting the
    first that fails: all fields present, then the e-mail, then the phone.
   */
  function CheckCustomerForm(name: string, email: string, phone: string): (r: Option<FormError>)
    ensures r == Some(AllFieldsRequired) <==> name == [] || email == [] || phone == []
    ensures r == Some(InvalidEmailFormat) <==>
              name != [] && email != [] && phone != [] && !EmailAccepted(email)
    ensures r == Some(InvalidPhoneFormat) <==>
              name != [] && email != [] && phone != [] && EmailAccepted(email) && !PhoneAccepted(phone)
    ensures r == None <==> name != [] && EmailAccepted(email) && PhoneAccepted(phone)
  {
    if name == [] || email == [] || phone == [] then Some(AllFieldsRequired)
    else if !ValidateEmail(email) then Some(InvalidEmailFormat)
    else if !ValidatePhone(phone) then Some(InvalidPhoneFormat)
    else None
  }

  /** `add_customer`'s `save`: checks the raw values, then inserts their sanitised forms. */
  function SaveNewCustomer(name: string, email: string, phone: string): (r: CustomerSave)
    ensures r.Refused? <==> CheckCustomerForm(name, email, phone).Some?
    ensures r.Refused? ==> r.error == CheckCustomerForm(name, email, phone).value
    ensures r.Issued? ==>
              r.statement == InsertCustomer(Sanitize(name), Sanitize(email), Sanitize(phone))
  {
    match CheckCustomerForm(name, email, phone)
    case Some(e) => Refused(e)
    case None => Issued(InsertCustomer(Sanitize(name), Sanitize(email), Sanitize(phone)))
  }

  /** `edit_customer`'s `save`: the same checks, then an update of the selected customer. */
  function SaveEditedCustomer(customerId: int, name: string, email: string, phone: string): (r: CustomerSave)
    ensures r.Refused? <==> CheckCustomerForm(name, email, phone).Some?
    ensures r.Refused? ==> r.error == CheckCustomerForm(name, email, phone).value
    ensures r.Issued? ==>
              r.statement == UpdateCustomer(Sanitize(name), Sanitize(email), Sanitize(phone), customerId)
  {
    match CheckCustomerForm(name, email, phone)
    case Some(e) => Refused(e)
    case None => Issued(UpdateCustomer(Sanitize(name), Sanitize(email), Sanitize(phone), customerId))
  }

  /** Every character an address of the e-mail language holds is neither dangerous nor blank. */
  lemma EmailCharsClean(t: string, at: int, dot: int)
    requires EmailSplit(t, at, dot)
    ensures forall i :: 0 <= i < |t| ==> !IsDangerous(t[i]) && !IsSpace(t[i])
  {
    forall i | 0 <= i < |t|
      ensures !IsDangerous(t[i]) && !IsSpace(t[i])
    {
      if i < at {
        assert t[i] == t[..at][i];
      } else if at < i < dot {
        assert t[i] == t[at + 1..dot][i - at - 1];
      } else if dot < i {
        assert t[i] == t[dot + 1..][i - dot - 1];
      }
    }
  }

  /** Every character a number of the phone language holds is neither dangerous nor blank. */
  lemma PhoneCharsClean(t: string, plus: nat, one: nat)
    requires PhoneSplit(t, plus, one)
    ensures forall i :: 0 <= i < |t| ==> !IsDangerous(t[i]) && !IsSpace(t[i])
  {
    forall i | 0 <= i < |t|
      ensures !IsDangerous(t[i]) && !IsSpace(t[i])
    {
      if i >= plus + one {
        assert t[i] == t[plus + one..][i - plus - one];
      }
    }
  }

  /** Sanitising an entry made of clean characters, perhaps with one final newline, drops just the newline. */
  lemma SanitizeCleanEntry(s: string, t: string)
    requires t != [] && forall i :: 0 <= i < |t| ==> !IsDangerous(t[i]) && !IsSpace(t[i])
    requires s == t || s == t + ['\n']
    ensures Sanitize(s) == t
  {
    RemoveDangerousUnchanged(t);
    StripUnchanged(t);
    if s != t {
      RemoveDangerousConcat(t, ['\n']);
      assert RemoveDangerous(['\n']) == ['\n'];
      StripTrailingNewline(t);
    }
    assert Sanitize(s) == Strip(RemoveDangerous(s));
  }

  /**
    An accepted e-mail entry is stored as the address the check matched:
    sanitising changes it at most by dropping the newline `$` let through.
   */
  lemma AcceptedEmailStoredAsMatched(email: string)
    requires EmailAccepted(email)
    ensures EmailLanguage(Sanitize(email))
    ensures Sanitize(email) == email || email == Sanitize(email) + ['\n']
  {
    var t := if EmailLanguage(email) then email else email[..|email| - 1];
    var at, dot :| EmailSplit(t, at, dot);
    EmailCharsClean(t, at, dot);
    if !EmailLanguage(email) {
      assert email == t + ['\n'];
    }
    SanitizeCleanEntry(email, t);
  }

  /** The same for an accepted phone entry. */
  lemma AcceptedPhoneStoredAsMatched(phone: string)
    requires PhoneAccepted(phone)
    ensures PhoneLanguage(Sanitize(phone))
    ensures Sanitize(phone) == phone || phone == Sanitize(phone) + ['\n']
  {
    var t := if PhoneLanguage(phone) then phone else phone[..|phone| - 1];
    var plus: nat, one: nat :| PhoneSplit(t, plus, one);
    PhoneCharsClean(t, plus, one);
    if !PhoneLanguage(phone) {
      assert phone == t + ['\n'];
    }
    SanitizeCleanEntry(phone, t);
  }

  /**
    The presence check looks at the raw name, the insert binds the sanitised
    one: a name made only of dangerous characters passes and is stored empty.
   */
  lemma DangerousOnlyNameStoredEmpty(c: char, email: string, phone: string)
    requires IsDangerous(c) && EmailAccepted(email) && PhoneAccepted(phone)
    ensures SaveNewCustomer([c], email, phone).Issued?
    ensures SaveNewCustomer([c], email, phone).statement.name == []
  {
    assert RemoveDangerous([c]) == [];
    assert Sanitize([c]) == Strip(RemoveDangerous([c]));
  }

  // ---------------------------------------------------------------------
  // add_account: the customer combo box

  /**
    A combo-box entry, `f"{name} ({id})"`. Python raises `ValueError`
    instead when the id is not `WithinStrLimit`.
   */
  function ComboEntry(name: string, id: int): (e: string)
    ensures |e| > |name| + 2 && e[..|name|] == name && e[|e| - 1] == ')'
  {
    name + " (" + IntToString(id) + ")"
  }

  /** How reading the customer id out of an entry ends. */
  datatype IdParse =
    | Parsed(id: int)
    | NoParenthesis  // `split('(')[1]` raises IndexError, which `save` does not catch
    | NotAnInteger   // `int(...)` raises ValueError: "Failed to add account"

  /** The text `int` is applied to, when the entry holds a `(`. */
  function TextAfterFirstParenthesis(entry: string): (t: string)
    requires '(' in entry
    ensures '(' !in t && (t == [] || t[|t| - 1] != ')')
  {
    SplitAtSeparator(entry, '(');
    SplitPiecesFree(entry, '(');
    var piece := Split(entry, '(')[1];
    var t := RStripChar(piece, ')');
    assert forall i :: 0 <= i < |t| ==> t[i] == piece[i];
    t
  }

  /**
    As written: `int(entry.split('(')[1].rstrip(')'))`, the piece between the
    first `(` and the next one, trailing `)` removed.
   */
  function ParseCustomerId(entry: string): (r: IdParse)
    ensures r == NoParenthesis <==> '(' !in entry
    ensures r.Parsed? ==> ParseInt(TextAfterFirstParenthesis(entry)) == Some(r.id)
    ensures r == NotAnInteger <==> '(' in entry && ParseInt(TextAfterFirstParenthesis(entry)).None?
  {
    if '(' !in entry then
      SplitWithoutSeparator(entry, '(');
      NoParenthesis
    else
      match ParseInt(TextAfterFirstParenthesis(entry))
      case Some(n) => Parsed(n)
      case None => NotAnInteger
  }

  /** The text of `str(n)` holds no parenthesis. */
  lemma IntToStringPlain(n: int)
    ensures '(' !in IntToString(n) && ')' !in IntToString(n)
    ensures IsDigit(IntToString(n)[|IntToString(n)| - 1])
  {
    var m: nat := if n < 0 then -n else n;
    var d := NatToString(m);
    assert forall i :: 0 <= i < |d| ==> d[i] != '(' && d[i] != ')';
    if n < 0 {
      assert IntToString(n) == "-" + d;
      assert IntToString(n)[|IntToString(n)| - 1] == d[|d| - 1];
    }
  }

  /** The entry of a customer whose name has no `(` gives back that customer's id. */
  lemma ComboEntryRoundTrip(name: string, id: int)
    requires '(' !in name && WithinStrLimit(id)
    ensures ParseCustomerId(ComboEntry(name, id)) == Parsed(id)
  {
    var digits := IntToString(id);
    IntToStringPlain(id);
    var a := name + " ";
    var b := digits + ")";
    assert ComboEntry(name, id) == a + ['('] + b;
    SplitConcat(a, b, '(');
    SplitWithoutSeparator(a, '(');
    SplitWithoutSeparator(b, '(');
    assert Split(ComboEntry(name, id), '(')[1] == b;
    assert b[..|b| - 1] == digits;
    assert RStripChar(b, ')') == digits;
    ParseIntOfIntToString(id);
  }

  /** A text holding `)` is not an integer. */
  lemma ParseSignedRejectsParenthesis(t: string)
    requires ')' in t
    ensures ParseSigned(t) == None
  {
    var k :| 0 <= k < |t| && t[k] == ')';
    if |t| > 0 && (t[0] == '-' || t[0] == '+') {
      assert t[1..][k - 1] == ')';
    }
  }

  /** Three `(`-free pieces joined by `(`: the second piece is what `split('(')[1]` returns. */
  lemma SecondPieceOfSplit(a: string, b: string, c: string)
    requires '(' !in a && '(' !in b && '(' !in c
    ensures var parts := Split(a + ['('] + (b + ['('] + c), '(');
            |parts| == 3 && parts[1] == b
  {
    var x := b + ['('] + c;
    SplitConcat(a, x, '(');
    SplitConcat(b, c, '(');
    SplitWithoutSeparator(a, '(');
    SplitWithoutSeparator(b, '(');
    SplitWithoutSeparator(c, '(');
    assert Split(x, '(') == [b, c];
    assert Split(a + ['('] + x, '(') == [a] + [b, c];
  }

  /**
    A customer whose name holds `(` and then a `)` before any further `(`
    (say "Smith (Jr)") cannot be chosen: the id is read from the name.
   */
  lemma ParenthesisedNameUnparsable(before: string, inside: string, id: int)
    requires '(' !in before && '(' !in inside && ')' in inside
    ensures ParseCustomerId(ComboEntry(before + "(" + inside, id)) == NotAnInteger
  {
    var entry := ComboEntry(before + "(" + inside, id);
    var piece := inside + " ";
    var rest := IntToString(id) + ")";
    IntToStringPlain(id);
    assert entry == before + ['('] + (piece + ['('] + rest);
    SecondPieceOfSplit(before, piece, rest);
    assert RStripChar(piece, ')') == piece;
    var k :| 0 <= k < |inside| && inside[k] == ')';
    assert piece[k] == ')';
    IntStripKeepsInnerChar(piece, k);
    ParseSignedRejectsParenthesis(IntStrip(piece));
    assert TextAfterFirstParenthesis(entry) == piece;
  }

  /** The text after the last `(` of an entry: it ends the entry and holds no `(`. */
  function TextAfterLastParenthesis(entry: string): (t: string)
    requires '(' in entry
    ensures |t| < |entry| && entry[|entry| - |t| - 1] == '(' && t == entry[|entry| - |t|..]
    ensures forall j :: |entry| - |t| <= j < |entry| ==> entry[j] != '('
  {
    var k := LastIndexOf(entry, '(').value;
    entry[k + 1..]
  }

  /**
    Corrected: the id is read after the LAST `(` of the entry, which is the
    one the entry format itself adds.
   */
  function ParseCustomerIdLast(entry: string): (r: IdParse)
    ensures r == NoParenthesis <==> '(' !in entry
    ensures r.Parsed? ==> ParseInt(RStripChar(TextAfterLastParenthesis(entry), ')')) == Some(r.id)
    ensures r == NotAnInteger <==>
              '(' in entry && ParseInt(RStripChar(TextAfterLastParenthesis(entry), ')')).None?
  {
    if '(' !in entry then NoParenthesis
    else
      match ParseInt(RStripChar(TextAfterLastParenthesis(entry), ')'))
      case Some(n) => Parsed(n)
      case None => NotAnInteger
  }

  /** When no `(` follows a given one, the text after the last `(` is everything after it. */
  lemma TextAfterLastParenthesisOf(a: string, b: string)
    requires '(' !in b
    ensures TextAfterLastParenthesis(a + ['('] + b) == b
  {
    var entry := a + ['('] + b;
    var t := TextAfterLastParenthesis(entry);
    assert entry[|a|] == '(' && entry[|a| + 1..] == b;
  }

  /** The corrected parse finds the text between the entry's own parentheses. */
  lemma EntryDigitsAfterLastParenthesis(name: string, digits: string)
    requires '(' !in digits && ')' !in digits
    ensures var entry := name + " (" + digits + ")";
            '(' in entry && RStripChar(TextAfterLastParenthesis(entry), ')') == digits
  {
    var entry := name + " (" + digits + ")";
    var b := digits + ")";
    assert entry == (name + " ") + ['('] + b;
    assert entry[|name| + 1] == '(';
    TextAfterLastParenthesisOf(name + " ", b);
    assert b[..|b| - 1] == digits;
  }

  /** With the correction, every customer's entry gives back its id, whatever the name. */
  lemma ComboEntryRoundTripLast(name: string, id: int)
    requires WithinStrLimit(id)
    ensures ParseCustomerIdLast(ComboEntry(name, id)) == Parsed(id)
  {
    IntToStringPlain(id);
    EntryDigitsAfterLastParenthesis(name, IntToString(id));
    ParseIntOfIntToString(id);
    ParseCustomerIdLastReads(ComboEntry(name, id), IntToString(id), id);
  }

  /** The corrected parse returns the number `int()` reads after the last `(`. */
  lemma ParseCustomerIdLastReads(entry: string, digits: string, id: int)
    requires '(' in entry && RStripChar(TextAfterLastParenthesis(entry), ')') == digits
    requires ParseInt(digits) == Some(id)
    ensures ParseCustomerIdLast(entry) == Parsed(id)
  {
  }

  // ---------------------------------------------------------------------
  // add_account's Save button

  /** What `add_account`'s `save` does with the dialog's three fields. */
  datatype AccountSave =
    | AccountFieldsRequired        // "All fields are required"
    | AccountRejected              // ValueError: "Failed to add account: ..."
    | AccountCrashed               // IndexError escapes `save`
    | InsertAccount(customerId: int, balance: real, accountType: string)

  /**
    `add_account`'s `save` up to the inserts. The balance text is read with
    `parseFloat`, a parameter standing for Python's `float`.
   */
  function SaveNewAccount(customer: string, accountType: string, balance: string,
                          parseFloat: string -> Option<real>): (r: AccountSave)
    ensures r == AccountFieldsRequired <==> customer == [] || accountType == [] || balance == []
    ensures r == AccountCrashed <==>
              customer != [] && accountType != [] && balance != [] && '(' !in customer
    ensures r.InsertAccount? <==>
              && customer != [] && accountType != [] && balance != []
              && ParseCustomerId(customer).Parsed? && parseFloat(balance).Some?
    ensures r.InsertAccount? ==>
              r == InsertAccount(ParseCustomerId(customer).id, parseFloat(balance).value, accountType)
  {
    if customer == [] || accountType == [] || balance == [] then AccountFieldsRequired
    else
      match ParseCustomerId(customer)
      case NoParenthesis => AccountCrashed
      case NotAnInteger => AccountRejected
      case Parsed(id) =>
        match parseFloat(balance)
        case None => AccountRejected
        case Some(amount) => InsertAccount(id, amount, accountType)
  }

  /**
    Choosing a listed customer whose name has no `(`, with a type and a
    readable balance, opens the account for that customer.
   */
  lemma ChosenCustomerGetsAccount(name: string, id: int, accountType: string, balance: string,
                                  parseFloat: string -> Option<real>)
    requires '(' !in name && WithinStrLimit(id)
    requires accountType != [] && balance != [] && parseFloat(balance).Some?
    ensures SaveNewAccount(ComboEntry(name, id), accountType, balance, parseFloat)
            == InsertAccount(id, parseFloat(balance).value, accountType)
  {
    ComboEntryRoundTrip(name, id);
  }
}
