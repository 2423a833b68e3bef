/** The staff navigation bar: the name it greets the user with and the links the user's
    role may see. */
module Navbar {
  import opened Wrappers
  import opened Seqs
  import opened Text

  /** A text JavaScript treats as true: present and not empty. */
  predicate Given(s: Option<string>) {
    s.Some? && s.value != ""
  }

  /** The first `' '`-separated token of the trimmed text: `s.trim().split(' ')[0]`. */
  function FirstWord(s: string): (r: string)
    ensures ' ' !in r
    ensures |r| <= |Trim(s)| && r == Trim(s)[..|r|]
    ensures |r| < |Trim(s)| ==> Trim(s)[|r|] == ' '
  {
    BeforeChar(Trim(s), ' ')
  }

  /** `displayUserName`: the first word of `nomyape` when there is one; otherwise nothing
      without a `userName`, the part before the first `@` of an e-mail-like `userName`
      (not trimmed), or the first word of any other `userName`. */
  function DisplayUserName(nomyape: Option<string>, userName: Option<string>): (r: string)
    ensures Given(nomyape) ==> r == FirstWord(nomyape.value)
    ensures !Given(nomyape) && !Given(userName) ==> r == ""
    ensures !Given(nomyape) && Given(userName) && '@' in userName.value ==>
      '@' !in r && |r| < |userName.value| && r == userName.value[..|r|] && userName.value[|r|] == '@'
    ensures !Given(nomyape) && Given(userName) && '@' !in userName.value ==> r == FirstWord(userName.value)
  {
    if Given(nomyape) then FirstWord(nomyape.value)
    else if !Given(userName) then ""
    else if '@' in userName.value then userName.value[..IndexOf(userName.value, '@')]
    else FirstWord(userName.value)
  }

  /** Of an e-mail address only the part before the `@` is shown. */
  lemma EmailShowsLocalPart(local: string, domain: string)
    requires local != [] && '@' !in local
    ensures DisplayUserName(None, Some(local + "@" + domain)) == local
  {
    var u := local + "@" + domain;
    assert u == local + ("@" + domain);
    BeforeCharOfPieces(local, "@" + domain, '@');
  }

  /** A full name shows its first word, whatever the user name is. */
  lemma {:induction false} FullNameShowsFirstWord(first: string, rest: string, userName: Option<string>)
    requires first != [] && forall i :: 0 <= i < |first| ==> !IsSpace(first[i])
    ensures DisplayUserName(Some(first + " " + rest), userName) == first
  {
    var s := first + " " + rest;
    TrimStartNoSpace(s);
    var t := TrimEnd(s);
    assert Trim(s) == t;
    assert !IsSpace(s[|first| - 1]);
    assert |t| >= |first|;
    assert t == first + t[|first|..];
    assert s[|first|] == ' ';
    BeforeCharOfPieces(first, t[|first|..], ' ');
  }

  /** A `nomyape` made only of white space still wins over the user name, and shows
      nothing. */
  lemma BlankNameHidesUserName(nomyape: string, userName: Option<string>)
    requires nomyape != [] && forall i :: 0 <= i < |nomyape| ==> IsSpace(nomyape[i])
    ensures DisplayUserName(Some(nomyape), userName) == ""
  {
    TrimEmptyIff(nomyape);
  }

  /** `displayUserName || 'Invitado'`. */
  function Greeting(display: string): (r: string)
    ensures r != ""
    ensures display != "" ==> r == display
    ensures display == "" ==> r == "Invitado"
  {
    if display != "" then display else "Invitado"
  }

  /** Nobody signed in is greeted as a guest, and so is a blank full name. */
  lemma GuestGreeting(userName: Option<string>)
    ensures Greeting(DisplayUserName(None, None)) == "Invitado"
    ensures Greeting(DisplayUserName(Some(" "), userName)) == "Invitado"
  {
    BlankNameHidesUserName(" ", userName);
  }

  datatype Link = Link(id: int, href: string, title: string, roles: seq<string>)

  /** The declared links, each with the roles allowed to see it. */
  const Links := [
    Link(1, "dashboard", "Dashboard", ["admin", "empleado"]),
    Link(2, "dashboard/usuarios", "Usuarios", ["admin", "administrador"]),
    Link(3, "dashboard/locales", "Locales", ["admin", "administrador"])
  ]

  function VisibleTo(userLevel: Option<string>): Link -> bool {
    (l: Link) => userLevel.Some? && userLevel.value in l.roles
  }

  /** `filteredLinks`: the links whose roles include the user's level, in declaration
      order; an unknown or missing level sees none. */
  function FilteredLinks(userLevel: Option<string>): (r: seq<Link>)
    ensures IsSubseq(r, Links)
    ensures forall l :: l in r <==> l in Links && userLevel.Some? && userLevel.value in l.roles
  {
    FilterIsSubseq(Links, VisibleTo(userLevel));
    Filter(Links, VisibleTo(userLevel))
  }

  /** The menu of each role: 'admin' sees everything, 'empleado' only the dashboard,
      'administrador' users and locales, anyone else nothing. */
  lemma LinksByRole(level: string)
    ensures FilteredLinks(Some(level)) ==
      if level == "admin" then Links
      else if level == "empleado" then [Links[0]]
      else if level == "administrador" then [Links[1], Links[2]]
      else []
  {
    var p := VisibleTo(Some(level));
    assert Links == [Links[0]] + ([Links[1]] + ([Links[2]] + []));
    assert Filter(Links, p) == Filter([Links[0]], p) + Filter([Links[1]] + ([Links[2]] + []), p) by {
      FilterAppend([Links[0]], [Links[1]] + ([Links[2]] + []), p);
    }
    FilterAppend([Links[1]], [Links[2]] + [], p);
    FilterAppend([Links[2]], [], p);
  }
}
