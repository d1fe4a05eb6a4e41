/**
 * The session controller of the single-page application: the screen being
 * shown, the signed-in user, the appointments of the session and the
 * appointment just scheduled, with one method per event handler and the
 * screen dispatch that decides which handlers the rendered view offers.
 *
 * `Date.now().toString()` becomes the parameter `clock` (for a clock of
 * `now` milliseconds, the id lemmas write it as `NatToString(now)`) and
 * `Math.random()` the parameter `roll` in [0, 1). Toasts become returned
 * `Notice` values.
 */
module Index {
  import opened Wrappers
  import opened JsText
  import opened Records
  import AppointmentsList

  datatype Screen = Welcome | Login | Register | Dashboard | Schedule | Confirmation | Appointments

  /** The `{ title, description }` handed to the toast hook. */
  datatype Notice = Notice(title: string, description: string)

  const Technicians: seq<string> := ["Josh Moraes", "Camila Santiago", "Enzo Daniel"]

  // ---------------------------------------------------------------------------
  // Identifiers and technicians

  /**
   * `'TM' + clock.slice(-6)`, where `clock` is `Date.now().toString()`: "TM"
   * and then the last (at most six) characters of the clock.
   */
  function GenerateAppointmentId(clock: string): (id: string)
    ensures |id| == 2 + (if |clock| <= 6 then |clock| else 6)
    ensures id[..2] == "TM" && clock == clock[..|clock| - (|id| - 2)] + id[2..]
  {
    "TM" + SliceFromEnd(clock, 6)
  }

  /** Any clock from 100000 ms on gives an eight-character id: "TM" and the clock's last six digits, zero-padded. */
  lemma AppointmentIdFormat(now: nat)
    requires now >= 100000
    ensures GenerateAppointmentId(NatToString(now)) == "TM" + LastDigits(now, 6)
    ensures |GenerateAppointmentId(NatToString(now))| == 8
  {
    assert Pow10(5) == 100000;
    NatToStringLength(now, 5);
    NatToStringSuffix(now, 6);
  }

  /** Two such clocks give the same id exactly when they agree modulo 10^6 (1000 seconds). */
  lemma AppointmentIdsCollide(now: nat, now': nat)
    requires now >= 100000 && now' >= 100000
    ensures GenerateAppointmentId(NatToString(now)) == GenerateAppointmentId(NatToString(now'))
        <==> now % 1000000 == now' % 1000000
  {
    AppointmentIdFormat(now);
    AppointmentIdFormat(now');
    assert Pow10(6) == 1000000;
    LastDigitsEqual(now, now', 6);
    var id, id' := GenerateAppointmentId(NatToString(now)), GenerateAppointmentId(NatToString(now'));
    if id == id' {
      assert id[2..] == LastDigits(now, 6) && id'[2..] == LastDigits(now', 6);
    }
  }

  /** Appointments scheduled less than 1000 seconds apart get different ids. */
  lemma CloseClocksGiveDistinctIds(now: nat, now': nat)
    requires 100000 <= now < now' < now + 1000000
    ensures GenerateAppointmentId(NatToString(now)) != GenerateAppointmentId(NatToString(now'))
  {
    AppointmentIdsCollide(now, now');
    CloseValuesDifferModulo(now, now', 1000000);
  }

  /** `Math.floor(Math.random() * technicians.length)`: the third of [0, 1) that `roll` falls in. */
  function TechnicianIndex(roll: real): (k: nat)
    requires 0.0 <= roll < 1.0
    ensures k < |Technicians|
    ensures k as real <= roll * 3.0 < (k + 1) as real
  {
    (roll * 3.0).Floor
  }

  function GetRandomTechnician(roll: real): (t: string)
    requires 0.0 <= roll < 1.0
    ensures t in Technicians
  {
    Technicians[TechnicianIndex(roll)]
  }

  // ---------------------------------------------------------------------------
  // Display name

  /**
   * The display name `handleLogin` derives from an e-mail address: the text
   * before the first '@', with its first letter upper-cased.
   */
  function DisplayName(email: string): (name: string)
    ensures '@' !in name
    ensures |name| <= |email| && (|name| == |email| || email[|name|] == '@')
    ensures name == [] <==> email == [] || email[0] == '@'
    ensures name != [] ==> name[0] == UpperAscii(email[0]) && name[1..] == email[1..|name|]
  {
    Capitalize(BeforeAt(email))
  }

  /** An address made of an '@'-free local part and then '@' gives that local part, capitalised. */
  lemma DisplayNameOfAddress(local: string, domain: string)
    requires '@' !in local
    ensures DisplayName(local + "@" + domain) == Capitalize(local)
  {
    var email := local + "@" + domain;
    assert email[|local|] == '@';
    assert email[..|local|] == local;
  }

  /** "alice@example.com" gives "Alice". */
  lemma DisplayNameExample()
    ensures DisplayName("alice" + "@" + "example.com") == "Alice"
  {
    DisplayNameOfAddress("alice", "example.com");
  }

  // ---------------------------------------------------------------------------
  // Toasts

  const LoginTitle := "Login realizado com sucesso!"
  const RegisterTitle := "Conta criada com sucesso!"
  const ScheduleTitle := "Agendamento confirmado!"
  const EditTitle := "Funcionalidade em desenvolvimento"
  const CancelTitle := "Agendamento cancelado"
  const LogoutTitle := "Logout realizado"

  const LoginGreeting := "Bem-vindo de volta, "
  const RegisterGreeting := "Bem-vindo ao TechManaus, "
  const TechnicianPrefix := "T\U{E9}cnico "
  const TechnicianSuffix := " foi atribu\U{ED}do ao seu atendimento."

  /** The login toast greets the user by the derived name, which sits right after the greeting. */
  function LoginNotice(name: string): (n: Notice)
    ensures n.title == LoginTitle
    ensures |n.description| == |LoginGreeting| + |name| + 1
    ensures n.description[..|LoginGreeting|] == LoginGreeting
    ensures n.description[|LoginGreeting|..|LoginGreeting| + |name|] == name
    ensures n.description[|n.description| - 1] == '!'
  {
    Notice(LoginTitle, LoginGreeting + name + "!")
  }

  /** The registration toast greets the user by the name as typed. */
  function RegisterNotice(name: string): (n: Notice)
    ensures n.title == RegisterTitle
    ensures |n.description| == |RegisterGreeting| + |name| + 1
    ensures n.description[..|RegisterGreeting|] == RegisterGreeting
    ensures n.description[|RegisterGreeting|..|RegisterGreeting| + |name|] == name
    ensures n.description[|n.description| - 1] == '!'
  {
    Notice(RegisterTitle, RegisterGreeting + name + "!")
  }

  /** The schedule toast names the technician assigned. */
  function ScheduleNotice(technician: string): (n: Notice)
    ensures n.title == ScheduleTitle
    ensures |n.description| == |TechnicianPrefix| + |technician| + |TechnicianSuffix|
    ensures n.description[..|TechnicianPrefix|] == TechnicianPrefix
    ensures n.description[|TechnicianPrefix|..|TechnicianPrefix| + |technician|] == technician
    ensures n.description[|TechnicianPrefix| + |technician|..] == TechnicianSuffix
  {
    Notice(ScheduleTitle, TechnicianPrefix + technician + TechnicianSuffix)
  }

  /** The edit toast says the feature is not available yet; it names no appointment. */
  function EditNotice(): (n: Notice)
    ensures n.title == EditTitle
    ensures n.description == "A edi\U{E7}\U{E3}o de agendamentos estar\U{E1} dispon\U{ED}vel em breve."
  {
    Notice(EditTitle, "A edi\U{E7}\U{E3}o de agendamentos estar\U{E1} dispon\U{ED}vel em breve.")
  }

  /** The cancel toast; it names no appointment. */
  function CancelNotice(): (n: Notice)
    ensures n.title == CancelTitle
    ensures n.description == "Seu agendamento foi cancelado com sucesso."
  {
    Notice(CancelTitle, "Seu agendamento foi cancelado com sucesso.")
  }

  /** The logout toast says goodbye. */
  function LogoutNotice(): (n: Notice)
    ensures n.title == LogoutTitle
    ensures n.description == "At\U{E9} logo!"
  {
    Notice(LogoutTitle, "At\U{E9} logo!")
  }

  // ---------------------------------------------------------------------------
  // The screen dispatch

  /** The screens whose `case` renders only with a signed-in user. */
  predicate NeedsUser(s: Screen)
  {
    s == Dashboard || s == Schedule || s == Confirmation || s == Appointments
  }

  /** Whether the `switch` renders a component for `s` rather than `null`. */
  function Renders(s: Screen, hasUser: bool, hasCurrent: bool): (r: bool)
    ensures r <==> (NeedsUser(s) ==> hasUser) && (s == Confirmation ==> hasCurrent)
  {
    match s
    case Welcome | Login | Register => true
    case Dashboard | Schedule | Appointments => hasUser
    case Confirmation => hasUser && hasCurrent
  }

  /** A callback prop the rendered component receives. */
  datatype Callback =
    | GoTo(target: Screen)
    | SubmitLogin
    | SubmitRegister
    | SubmitSchedule
    | EditAppointment
    | CancelAppointment
    | Logout

  /** The callbacks the view rendered for `s` can invoke; nothing when it renders `null`. */
  function Offered(s: Screen, hasUser: bool, hasCurrent: bool): (cbs: set<Callback>)
    ensures cbs != {} <==> Renders(s, hasUser, hasCurrent)
    ensures Logout in cbs <==> NeedsUser(s) && Renders(s, hasUser, hasCurrent)
    ensures SubmitSchedule in cbs ==> hasUser
  {
    if !Renders(s, hasUser, hasCurrent) then {}
    else match s
      case Welcome => {GoTo(Login), GoTo(Register)}
      case Login => {SubmitLogin, GoTo(Register), GoTo(Welcome)}
      case Register => {SubmitRegister, GoTo(Login), GoTo(Welcome)}
      case Dashboard => {GoTo(Schedule), GoTo(Appointments), Logout}
      case Schedule => {SubmitSchedule, GoTo(Dashboard), Logout}
      case Confirmation => {GoTo(Dashboard), GoTo(Appointments), Logout}
      case Appointments => {GoTo(Dashboard), EditAppointment, CancelAppointment, Logout}
  }

  /** The navigation edges, listed from the point of view of the user. */
  const NavigationEdges: set<(Screen, Screen)> := {
    (Welcome, Login), (Welcome, Register),
    (Login, Register), (Login, Welcome),
    (Register, Login), (Register, Welcome),
    (Dashboard, Schedule), (Dashboard, Appointments),
    (Schedule, Dashboard),
    (Confirmation, Dashboard), (Confirmation, Appointments),
    (Appointments, Dashboard)
  }

  /** A navigation callback exists exactly for the listed edges, and only from a screen that renders. */
  lemma NavigationTable(s: Screen, t: Screen, hasUser: bool, hasCurrent: bool)
    ensures GoTo(t) in Offered(s, hasUser, hasCurrent) <==> Renders(s, hasUser, hasCurrent) && (s, t) in NavigationEdges
  {
  }

  /**
   * Navigation never crosses the sign-in boundary (only submitting the login
   * or register form enters it and only logout leaves it) and never goes to
   * the confirmation screen (only scheduling does).
   */
  lemma NavigationKeepsSide(s: Screen, t: Screen, hasUser: bool, hasCurrent: bool)
    requires GoTo(t) in Offered(s, hasUser, hasCurrent)
    ensures NeedsUser(t) == NeedsUser(s) && t != Confirmation
  {
  }

  // ---------------------------------------------------------------------------
  // The appointment list

  /** `prev.filter(apt => apt.id !== id)`. */
  function WithoutId(s: seq<Appointment>, id: string): (r: seq<Appointment>)
    ensures |r| <= |s|
    ensures forall a :: a in r <==> a in s && a.id != id
    ensures (forall a :: a in s ==> a.id != id) ==> r == s
    decreases |s|
  {
    if s == [] then []
    else (if s[0].id != id then [s[0]] else []) + WithoutId(s[1..], id)
  }

  /** Filtering distributes over concatenation: the kept records stay in their relative order. */
  lemma {:induction false} WithoutIdAppend(s: seq<Appointment>, s': seq<Appointment>, id: string)
    ensures WithoutId(s + s', id) == WithoutId(s, id) + WithoutId(s', id)
    decreases |s|
  {
    if s != [] {
      var head := if s[0].id != id then [s[0]] else [];
      assert (s + s')[0] == s[0];
      assert (s + s')[1..] == s[1..] + s';
      assert WithoutId(s + s', id) == head + WithoutId(s[1..] + s', id);
      WithoutIdAppend(s[1..], s', id);
      assert WithoutId(s, id) == head + WithoutId(s[1..], id);
    } else {
      assert s + s' == s';
    }
  }

  /** On one record the filter keeps it exactly when its id differs. */
  lemma WithoutIdSingle(a: Appointment, id: string)
    ensures WithoutId([a], id) == if a.id == id then [] else [a]
  {
    assert [a][1..] == [];
  }

  /** Cancelling an id that is present makes the list strictly shorter. */
  lemma {:induction false} WithoutIdShrinks(s: seq<Appointment>, id: string, k: nat)
    requires k < |s| && s[k].id == id
    ensures |WithoutId(s, id)| < |s|
    decreases |s|
  {
    if k > 0 {
      WithoutIdShrinks(s[1..], id, k - 1);
    }
  }

  /** Cancelling twice is the same as cancelling once. */
  lemma WithoutIdIdempotent(s: seq<Appointment>, id: string)
    ensures WithoutId(WithoutId(s, id), id) == WithoutId(s, id)
  {
  }

  /** Cancelling the record just scheduled gives back the earlier list, filtered the same way. */
  lemma CancelUndoesSchedule(s: seq<Appointment>, a: Appointment)
    ensures WithoutId(s + [a], a.id) == WithoutId(s, a.id)
  {
    WithoutIdAppend(s, [a], a.id);
    WithoutIdSingle(a, a.id);
  }

  /** What every record the controller creates satisfies. */
  predicate Issued(a: Appointment)
  {
    a.status == Solicitado && a.technician in Technicians
  }

  /**
   * The invariant of the controller's state: the dispatch never falls into a
   * `: null` branch, and every record is a requested appointment with a
   * technician from the roster.
   */
  predicate Consistent(screen: Screen, user: Option<User>, appointments: seq<Appointment>, current: Option<Appointment>)
  {
    && Renders(screen, user.Some?, current.Some?)
    && (forall a :: a in appointments ==> Issued(a))
    && (current.Some? ==> Issued(current.value))
  }

  /** Scheduling, by a signed-in user, an issued record keeps the invariant. */
  lemma ScheduleKeepsConsistent(screen: Screen, user: Option<User>, appointments: seq<Appointment>,
                                current: Option<Appointment>, a: Appointment)
    requires Consistent(screen, user, appointments, current)
    requires user.Some? && Issued(a)
    ensures Consistent(Confirmation, user, appointments + [a], Some(a))
  {
  }

  /**
   * Since nothing advances a status, every record the list shows while the
   * invariant holds offers the edit and cancel buttons.
   */
  lemma ListedRecordsOfferActions(screen: Screen, user: Option<User>, appointments: seq<Appointment>,
                                  current: Option<Appointment>, confirmCancel: Option<string>, k: nat)
    requires Consistent(screen, user, appointments, current) && k < |appointments|
    ensures AppointmentsList.Controls(appointments[k], confirmCancel).EditAndCancel?
  {
    assert appointments[k] in appointments;
  }

  // ---------------------------------------------------------------------------
  // The controller

  /** The four `useState` cells of the `Index` page. */
  class Session {
    var currentScreen: Screen
    var user: Option<User>
    var appointments: seq<Appointment>
    var currentAppointment: Option<Appointment>

    /**
     * The dispatch never falls into a `: null` branch, and every record is a
     * requested appointment with a technician from the roster.
     */
    ghost predicate Valid()
      reads this
    {
      Consistent(currentScreen, user, appointments, currentAppointment)
    }

    constructor ()
      ensures Valid()
      ensures currentScreen == Welcome && user == None
      ensures appointments == [] && currentAppointment == None
    {
      currentScreen := Welcome;
      user := None;
      appointments := [];
      currentAppointment := None;
    }

    /** One of the `() => setCurrentScreen(...)` callbacks of the rendered view. */
    method Navigate(target: Screen)
      requires Valid()
      requires GoTo(target) in Offered(currentScreen, user.Some?, currentAppointment.Some?)
      modifies this`currentScreen
      ensures Valid()
      ensures currentScreen == target
    {
      currentScreen := target;
    }

    method HandleLogin(email: string, password: string) returns (n: Notice)
      requires Valid()
      modifies this`user, this`currentScreen
      ensures Valid()
      ensures user == Some(User(DisplayName(email), email))
      ensures currentScreen == Dashboard
      ensures n == LoginNotice(DisplayName(email))
    {
      var userData := User(Capitalize(BeforeAt(email)), email);
      user := Some(userData);
      currentScreen := Dashboard;
      n := LoginNotice(userData.name);
    }

    method HandleRegister(name: string, email: string, password: string) returns (n: Notice)
      requires Valid()
      modifies this`user, this`currentScreen
      ensures Valid()
      ensures user == Some(User(name, email))
      ensures currentScreen == Dashboard
      ensures n == RegisterNotice(name)
    {
      user := Some(User(name, email));
      currentScreen := Dashboard;
      n := RegisterNotice(name);
    }

    /** Reachable only from the schedule form, which renders only with a signed-in user. */
    method HandleSchedule(date: string, time: string, description: string, clock: string, roll: real)
      returns (a: Appointment, n: Notice)
      requires Valid() && user.Some?
      requires 0.0 <= roll < 1.0
      modifies this`appointments, this`currentAppointment, this`currentScreen
      ensures Valid()
      ensures a == Appointment(GenerateAppointmentId(clock), date, time, description,
                               GetRandomTechnician(roll), Solicitado)
      ensures appointments == old(appointments) + [a]
      ensures currentAppointment == Some(a)
      ensures currentScreen == Confirmation
      ensures n == ScheduleNotice(a.technician)
    {
      var technician := GetRandomTechnician(roll);
      a := Appointment(GenerateAppointmentId(clock), date, time, description, technician, Solicitado);
      assert Issued(a);
      ScheduleKeepsConsistent(currentScreen, user, appointments, currentAppointment, a);
      appointments := appointments + [a];
      currentAppointment := Some(a);
      currentScreen := Confirmation;
      n := ScheduleNotice(a.technician);
    }

    /** Editing is not implemented: it only announces so, and changes nothing. */
    method HandleEditAppointment(id: string) returns (n: Notice)
      ensures n == EditNotice()
    {
      n := EditNotice();
    }

    /**
     * Removes every record carrying `id`. The current appointment is left in
     * place even when it is the one cancelled.
     */
    method HandleCancelAppointment(id: string) returns (n: Notice)
      requires Valid()
      modifies this`appointments
      ensures Valid()
      ensures appointments == WithoutId(old(appointments), id)
      ensures n == CancelNotice()
    {
      appointments := WithoutId(appointments, id);
      n := CancelNotice();
    }

    method HandleLogout() returns (n: Notice)
      modifies this
      ensures Valid()
      ensures user == None && appointments == [] && currentAppointment == None
      ensures currentScreen == Welcome
      ensures n == LogoutNotice()
    {
      user := None;
      appointments := [];
      currentAppointment := None;
      currentScreen := Welcome;
      n := LogoutNotice();
    }
  }

  // ---------------------------------------------------------------------------
  // Sessions driven through the offered callbacks

  /**
   * Register, schedule one appointment, open the list and press its cancel
   * button twice: the record is requested, has a roster technician and the
   * clock's id, and the list ends empty.
   */
  method RegisterScheduleCancel(clock: string, roll: real) returns (a: Appointment, remaining: seq<Appointment>)
    requires 0.0 <= roll < 1.0
    ensures a.status == Solicitado && a.technician in Technicians && a.id == GenerateAppointmentId(clock)
    ensures a.date == "2099-01-01" && a.time == "10:00" && a.description == "printer broken"
    ensures remaining == []
  {
    var s := new Session();
    s.Navigate(Register);
    var notice := s.HandleRegister("Maria", "maria@x.com", "pw");
    assert s.user == Some(User("Maria", "maria@x.com")) && s.currentScreen == Dashboard;
    s.Navigate(Schedule);
    a, notice := s.HandleSchedule("2099-01-01", "10:00", "printer broken", clock, roll);
    assert s.appointments == [a];
    s.Navigate(Appointments);
    var list := new AppointmentsList.CancelConfirmation();
    var first := list.HandleCancelAppointment(a.id);
    assert first == None;
    var second := list.HandleCancelAppointment(a.id);
    assert second == Some(a.id);
    notice := s.HandleCancelAppointment(second.value);
    remaining := s.appointments;
  }

  /**
   * Appointments of one session never reach the next: logging out from any
   * signed-in screen and logging in again starts from an empty list, whatever
   * the earlier session held.
   */
  method LoginAfterLogout(s: Session, email: string, password: string)
    requires s.Valid()
    requires Logout in Offered(s.currentScreen, s.user.Some?, s.currentAppointment.Some?)
    modifies s
    ensures s.Valid()
    ensures s.appointments == [] && s.currentAppointment == None
    ensures s.user == Some(User(DisplayName(email), email)) && s.currentScreen == Dashboard
  {
    var notice := s.HandleLogout();
    s.Navigate(Login);
    notice := s.HandleLogin(email, password);
  }
}
