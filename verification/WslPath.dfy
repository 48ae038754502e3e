/** The path translators of FreeBSD/wslpath.c, between /mnt/c/dir and C:\dir and
    between /mnt/wsl/server/share and \\server\share. */
module WslPath {
  import opened Wrappers

  // ---------------------------------------------------------------- characters

  predicate Upper(c: char) {
    'A' <= c <= 'Z'
  }

  predicate Lower(c: char) {
    'a' <= c <= 'z'
  }

  predicate Alpha(c: char) {
    Upper(c) || Lower(c)
  }

  function ToUpper(c: char): (u: char)
    ensures Lower(c) ==> Upper(u) && ToLower(u) == c
  {
    if Lower(c) then c - 'a' + 'A' else c
  }

  function ToLower(c: char): (l: char) {
    if Upper(c) then c - 'A' + 'a' else c
  }

  /** Every `from` becomes `to`. */
  function Replace(s: string, from: char, to: char): (r: string)
    ensures |r| == |s|
  {
    if s == "" then "" else [if s[0] == from then to else s[0]] + Replace(s[1..], from, to)
  }

  // ------------------------------------------------------------------ translation

  /** rest is wsl, alone or with something behind a slash. */
  predicate UncName(rest: string) {
    "wsl" <= rest && (|rest| == 3 || rest[3] == '/')
  }

  predicate DriveName(rest: string) {
    rest != "" && Alpha(rest[0]) && (|rest| == 1 || rest[1] == '/')
  }

  function Separator(mixed: bool): char {
    if mixed then '/' else '\\'
  }

  /** What is below the mount root. */
  function Below(root: string, path: string): string {
    if root != "" && root + "/" <= path then path[|root| + 1..] else ""
  }

  /** What to_windows makes of an absolute path. */
  function Windows(root: string, path: string, mixed: bool): string {
    var sep := Separator(mixed);
    var rest := Below(root, path);
    if UncName(rest) then Replace("\\\\" + (if |rest| == 3 then "" else rest[4..]), '/', sep)
    else if DriveName(rest) then [ToUpper(rest[0]), ':', sep] + Replace(if |rest| == 1 then "" else rest[2..], '/', sep)
    else Replace(path, '/', sep)
  }

  /** A relative path is taken from the current directory, if that can be told and
      both fit into `pathMax` characters with a NUL. */
  function Absolute(cwd: Option<string>, pathMax: nat, input: string): Option<string> {
    if input != "" && input[0] == '/' then Some(input)
    else match cwd
      case None => None
      case Some(dir) => if |dir + "/" + input| < pathMax then Some(dir + "/" + input) else None
  }

  /** What to_windows makes of any path. */
  function Translated(root: string, cwd: Option<string>, pathMax: nat, input: string, mixed: bool): Option<string> {
    match Absolute(cwd, pathMax, input)
    case None => None
    case Some(path) => Some(Windows(root, path, mixed))
  }

  function Drive(s: string): Option<char> {
    if |s| >= 2 && Alpha(s[0]) && s[1] == ':' then Some(ToLower(s[0])) else None
  }

  /** A long path prefix is dropped. */
  function Stripped(input: string): string {
    if "\\\\?\\" <= input then input[4..] else input
  }

  function Joined(prefix: string, rest: string): string {
    if rest == "" then prefix else prefix + "/" + rest
  }

  function SkipSeparator(s: string): string {
    if s != "" && (s[0] == '\\' || s[0] == '/') then s[1..] else s
  }

  function UnixBody(root: string, s: string): string {
    if "\\\\" <= s then Replace(root + "/wsl/" + s[2..], '\\', '/')
    else if Drive(s).Some? then Replace(Joined(root + "/" + [Drive(s).value], SkipSeparator(s[2..])), '\\', '/')
    else Replace(s, '\\', '/')
  }

  /** What to_unix makes of a path. */
  function Unix(root: string, input: string): string {
    UnixBody(root, Stripped(input))
  }

  // ------------------------------------------------------------ there and back again

  /** The automount root of a configuration. */
  predicate MountRoot(root: string) {
    root != "" && root[0] == '/' && '\\' !in root
  }

  lemma {:induction false} ReplaceAt(s: string, from: char, to: char, i: nat)
    requires i < |s|
    ensures Replace(s, from, to)[i] == if s[i] == from then to else s[i]
  {
    if i > 0 {
      ReplaceAt(s[1..], from, to, i - 1);
    }
  }

  lemma {:induction false} ReplaceNone(s: string, from: char, to: char)
    requires from !in s || from == to
    ensures Replace(s, from, to) == s
  {
    if s != "" {
      ReplaceNone(s[1..], from, to);
    }
  }

  lemma {:induction false} ReplaceAll(s: string, from: char, to: char)
    requires from != to
    ensures from !in Replace(s, from, to)
  {
    if s != "" {
      ReplaceAll(s[1..], from, to);
    }
  }

  lemma {:induction false} ReplaceTail(a: string, b: string, from: char, to: char)
    requires from !in a
    ensures Replace(a + b, from, to) == a + Replace(b, from, to)
  {
    if a == "" {
      assert a + b == b;
    } else {
      assert (a + b)[1..] == a[1..] + b && (a + b)[0] == a[0] && a[0] in a;
      ReplaceTail(a[1..], b, from, to);
    }
  }

  /** There and back. */
  function Back(s: string, a: char, b: char): (r: string)
    ensures |r| == |s|
  {
    Replace(Replace(s, a, b), b, a)
  }

  lemma {:induction false} BackIsSame(s: string, a: char, b: char)
    requires a == b || b !in s
    ensures Back(s, a, b) == s
  {
    if s != "" {
      BackIsSame(s[1..], a, b);
      assert Replace(s, a, b)[1..] == Replace(s[1..], a, b);
      assert s[0] in s;
    }
  }

  lemma ReplaceBack(s: string, a: char, b: char)
    ensures Back(s, a, b) == s <==> a == b || b !in s
  {
    if a == b || b !in s {
      BackIsSame(s, a, b);
    } else {
      ReplaceAll(Replace(s, a, b), b, a);
    }
  }

  lemma CaseBack(c: char)
    requires Alpha(c)
    ensures ToUpper(ToLower(c)) == c <==> Upper(c)
    ensures ToLower(ToUpper(c)) == c <==> Lower(c)
    ensures Alpha(ToLower(c)) && Alpha(ToUpper(c))
  {
  }

  lemma UnderRoot(root: string, rest: string)
    ensures root + "/" <= root + "/" + rest && (root + "/" + rest)[|root| + 1..] == rest
  {
  }

  /** A Windows path on a drive, and where it is mounted. */
  function OnDrive(x: char, sep: char, r: string): string {
    [x, ':', sep] + r
  }

  function Mounted(root: string, d: char, r: string): string {
    root + "/" + ([d] + if r == "" then "" else "/" + r)
  }

  lemma DriveParts(x: char, sep: char, r: string)
    requires Alpha(x) && (sep == '\\' || sep == '/')
    ensures var s := OnDrive(x, sep, r);
            Stripped(s) == s && !("\\\\" <= s) && Drive(s) == Some(ToLower(x)) && SkipSeparator(s[2..]) == r
  {
    var s := OnDrive(x, sep, r);
    assert s[0] == x && s[2..] == [sep] + r && ([sep] + r)[1..] == r;
  }

  lemma JoinedReplaced(prefix: string, r: string)
    requires '\\' !in prefix
    ensures Replace(Joined(prefix, r), '\\', '/') == Joined(prefix, Replace(r, '\\', '/'))
  {
    if r == "" {
      ReplaceNone(prefix, '\\', '/');
    } else {
      ReplaceTail(prefix + "/", r, '\\', '/');
    }
  }

  lemma MountedIsJoined(root: string, d: char, r: string)
    ensures Mounted(root, d, r) == Joined(root + "/" + [d], r)
  {
    if r != "" {
      Regrouped(root + "/", [d], "/", r);
    }
  }

  lemma DriveToUnix(root: string, x: char, sep: char, r: string)
    requires MountRoot(root) && Alpha(x) && (sep == '\\' || sep == '/')
    ensures Unix(root, OnDrive(x, sep, r)) == Mounted(root, ToLower(x), Replace(r, '\\', '/'))
  {
    DriveParts(x, sep, r);
    CaseBack(x);
    JoinedReplaced(root + "/" + [ToLower(x)], r);
    MountedIsJoined(root, ToLower(x), Replace(r, '\\', '/'));
  }

  lemma DriveToWindows(root: string, d: char, r: string, mixed: bool)
    requires MountRoot(root) && Alpha(d)
    ensures Windows(root, Mounted(root, d, r), mixed) == OnDrive(ToUpper(d), Separator(mixed), Replace(r, '/', Separator(mixed)))
  {
    var rest := [d] + if r == "" then "" else "/" + r;
    UnderRoot(root, rest);
    assert rest[0] == d && DriveName(rest) && !UncName(rest);
    assert r != "" ==> rest[2..] == r;
  }

  lemma DriveTwice(root: string, x: char, r: string)
    requires MountRoot(root) && Alpha(x)
    ensures Windows(root, Unix(root, OnDrive(x, '\\', r)), false)
         == OnDrive(ToUpper(ToLower(x)), '\\', Back(r, '\\', '/'))
  {
    DriveToUnix(root, x, '\\', r);
    DriveToWindows(root, ToLower(x), Replace(r, '\\', '/'), false);
  }

  lemma SameDrive(a: char, r: string, b: char, q: string)
    ensures OnDrive(a, '\\', r) == OnDrive(b, '\\', q) <==> a == b && r == q
  {
    var s, t := OnDrive(a, '\\', r), OnDrive(b, '\\', q);
    assert s[0] == a && t[0] == b && s[3..] == r && t[3..] == q;
  }

  /** X:\r comes back from to_unix exactly if X is upper-case and r has no slash. */
  lemma DriveThereAndBack(root: string, x: char, r: string)
    requires MountRoot(root) && Alpha(x)
    ensures Windows(root, Unix(root, OnDrive(x, '\\', r)), false) == OnDrive(x, '\\', r) <==> Upper(x) && '/' !in r
  {
    DriveTwice(root, x, r);
    CaseBack(x);
    ReplaceBack(r, '\\', '/');
    SameDrive(ToUpper(ToLower(x)), Back(r, '\\', '/'), x, r);
  }

  lemma MountedTwice(root: string, d: char, r: string, mixed: bool)
    requires MountRoot(root) && Alpha(d)
    ensures Unix(root, Windows(root, Mounted(root, d, r), mixed))
         == Mounted(root, ToLower(ToUpper(d)), Replace(Replace(r, '/', Separator(mixed)), '\\', '/'))
  {
    DriveToWindows(root, d, r, mixed);
    DriveToUnix(root, ToUpper(d), Separator(mixed), Replace(r, '/', Separator(mixed)));
  }

  lemma SameMounted(root: string, d: char, r: string, e: char, q: string)
    requires |r| == |q|
    ensures Mounted(root, d, r) == Mounted(root, e, q) <==> d == e && r == q
  {
    var s, t := Mounted(root, d, r), Mounted(root, e, q);
    assert s[|root| + 1] == d && t[|root| + 1] == e;
    assert r != "" ==> s[|root| + 3..] == r && t[|root| + 3..] == q;
  }

  /** In both modes a path on a drive comes back from to_windows exactly if the drive's
      letter is lower-case and there is no backslash. */
  lemma MountedThereAndBack(root: string, d: char, r: string, mixed: bool)
    requires MountRoot(root) && Alpha(d)
    ensures Unix(root, Windows(root, Mounted(root, d, r), mixed)) == Mounted(root, d, r) <==> Lower(d) && '\\' !in r
  {
    var q := Replace(Replace(r, '/', Separator(mixed)), '\\', '/');
    MountedTwice(root, d, r, mixed);
    CaseBack(d);
    ReplaceBack(r, '/', '\\');
    if mixed {
      ReplaceOwn(r);
    }
    SameMounted(root, d, r, ToLower(ToUpper(d)), q);
  }

  lemma ReplaceOwn(r: string)
    ensures Replace(r, '/', '/') == r
    ensures Replace(r, '\\', '/') == r <==> '\\' !in r
  {
    ReplaceNone(r, '/', '/');
    if '\\' in r {
      ReplaceAll(r, '\\', '/');
    } else {
      ReplaceNone(r, '\\', '/');
    }
  }

  /** A slash with nothing behind the drive's letter is lost. */
  lemma TrailingSlashIsLost(root: string, d: char, mixed: bool)
    requires MountRoot(root) && Alpha(d)
    ensures Unix(root, Windows(root, Mounted(root, d, "") + "/", mixed)) == Mounted(root, ToLower(d), "")
  {
    var rest := [d, '/'];
    var sep := Separator(mixed);
    assert Mounted(root, d, "") + "/" == root + "/" + rest;
    UnderRoot(root, rest);
    assert Windows(root, root + "/" + rest, mixed) == [ToUpper(d), ':', sep] + Replace("", '/', sep);
    assert Replace("", '/', sep) == "" == Replace("", '\\', '/');
    DriveToUnix(root, ToUpper(d), sep, "");
  }

  // ------------------------------------------------------------------- servers

  /** A server's name and what is behind it, in both forms. */
  function Unc(u: string): string {
    "\\\\" + u
  }

  function Share(root: string, u: string): string {
    root + "/" + ("wsl/" + u)
  }

  lemma UncToUnix(root: string, u: string)
    requires MountRoot(root)
    ensures UnixBody(root, Unc(u)) == Share(root, Replace(u, '\\', '/'))
  {
    assert Unc(u)[2..] == u;
    ReplaceTail(root + "/wsl/", u, '\\', '/');
    Regrouped(root, "/", "wsl/", Replace(u, '\\', '/'));
  }

  lemma Regrouped(a: string, b: string, c: string, d: string)
    ensures a + (b + c) + d == a + b + (c + d)
  {
  }

  lemma UncStripped(u: string)
    ensures Stripped(Unc(u)) == if "?\\" <= u then u[2..] else Unc(u)
  {
    var s := Unc(u);
    assert |s| >= 4 ==> s[2] == u[0] && s[3] == u[1];
    assert "?\\" <= u ==> s[4..] == u[2..];
  }

  lemma UncToWindows(root: string, u: string, mixed: bool)
    requires MountRoot(root)
    ensures Windows(root, Share(root, u), mixed) == Unc(Replace(u, '/', Separator(mixed)))
  {
    UnderRoot(root, "wsl/" + u);
    assert ("wsl/" + u)[4..] == u;
    ReplaceTail("\\\\", u, '/', Separator(mixed));
  }

  lemma UncTwice(root: string, u: string)
    requires MountRoot(root)
    ensures Windows(root, UnixBody(root, Unc(u)), false) == Unc(Back(u, '\\', '/'))
  {
    UncToUnix(root, u);
    UncToWindows(root, Replace(u, '\\', '/'), false);
  }

  lemma SameUnc(u: string, v: string)
    ensures Unc(u) == Unc(v) <==> u == v
  {
    assert Unc(u)[2..] == u && Unc(v)[2..] == v;
  }

  lemma NoLonger(root: string, path: string, mixed: bool)
    requires MountRoot(root)
    ensures |Windows(root, path, mixed)| <= |path|
  {
  }

  /** There and back, a path gains one character at most. */
  lemma GainsOne(root: string, s: string)
    requires MountRoot(root)
    ensures |Windows(root, UnixBody(root, s), false)| <= |s| + 1
  {
    if "\\\\" <= s {
      assert s == Unc(s[2..]);
      UncTwice(root, s[2..]);
    } else if Drive(s).Some? {
      var r := SkipSeparator(s[2..]);
      assert OnDrive(s[0], '\\', r)[2..] == ['\\'] + r;
      assert SkipSeparator(['\\'] + r) == r;
      assert Drive(OnDrive(s[0], '\\', r)) == Drive(s);
      assert UnixBody(root, s) == Unix(root, OnDrive(s[0], '\\', r));
      DriveTwice(root, s[0], r);
    } else {
      NoLonger(root, Replace(s, '\\', '/'), false);
    }
  }

  // ------------------------------------------------------------- what is not a drive

  /** What to_windows does with a path below the mount root, by its first component: wsl
      stands for servers, a single letter for its drive, and any other name, however it
      begins, leaves the path as it is but for the slashes. */
  lemma ByFirstName(root: string, name: string, tail: string, mixed: bool)
    requires MountRoot(root) && '/' !in name && (tail == "" || tail[0] == '/')
    ensures var sep, r := if mixed then '/' else '\\', if tail == "" then "" else tail[1..];
            Windows(root, root + "/" + (name + tail), mixed) ==
            if name == "wsl" then "\\\\" + Replace(r, '/', sep)
            else if |name| == 1 && ('A' <= name[0] <= 'Z' || 'a' <= name[0] <= 'z') then
              [ToUpper(name[0]), ':', sep] + Replace(r, '/', sep)
            else Replace(root + "/" + (name + tail), '/', sep)
  {
    var rest := name + tail;
    UnderRoot(root, rest);
    FirstNameIs(name, tail);
    if name == "wsl" {
      ReplaceTail("\\\\", if tail == "" then "" else tail[1..], '/', Separator(mixed));
    }
  }

  lemma FirstNameIs(name: string, tail: string)
    requires '/' !in name && (tail == "" || tail[0] == '/')
    ensures var rest := name + tail;
            && (UncName(rest) <==> name == "wsl")
            && (name == "wsl" ==> (|rest| == 3 <==> tail == "") && (tail != "" ==> rest[4..] == tail[1..]))
            && (name != "wsl" ==> (DriveName(rest) <==> |name| == 1 && Alpha(name[0])))
            && (|name| == 1 ==> rest[0] == name[0] && (|rest| == 1 <==> tail == "") && (tail != "" ==> rest[2..] == tail[1..]))
  {
    var rest := name + tail;
    assert forall i :: 0 <= i < |name| ==> rest[i] == name[i] && name[i] != '/';
    assert tail != "" ==> rest[|name|] == '/';
    assert |name| == 3 ==> name == rest[..3];
    if name == "wsl" {
      assert "wsl" <= rest;
    }
  }

  /** Elsewhere only the slashes change. */
  lemma OutsideTheRoot(root: string, path: string, mixed: bool)
    requires MountRoot(root) && !(root + "/" <= path)
    ensures Windows(root, path, mixed) == Replace(path, '/', if mixed then '/' else '\\')
  {
  }

  /** What to_unix does with a path that names neither a server nor a drive, and with one
      that is relative on its drive. */
  lemma OthersToUnix(root: string, s: string)
    requires MountRoot(root) && !("\\\\" <= s)
    ensures !(|s| >= 2 && Alpha(s[0]) && s[1] == ':') ==> Unix(root, s) == Replace(s, '\\', '/')
    ensures |s| >= 3 && Alpha(s[0]) && s[1] == ':' && s[2] != '/' && s[2] != '\\' ==>
              Unix(root, s) == root + "/" + [ToLower(s[0])] + "/" + Replace(s[2..], '\\', '/')
  {
    assert Stripped(s) == s;
    if |s| >= 3 && Alpha(s[0]) && s[1] == ':' && s[2] != '/' && s[2] != '\\' {
      CaseBack(s[0]);
      JoinedReplaced(root + "/" + [ToLower(s[0])], s[2..]);
    }
  }

  // ------------------------------------------------------------------ long paths

  /** What getcwd returns. */
  predicate CurrentDir(dir: string) {
    "/" <= dir && !("//" <= dir)
  }

  /** What is left of a long path is relative. */
  predicate Relative(s: string) {
    (s == "" || (s[0] != '\\' && s[0] != '/')) && Drive(s).None?
  }

  lemma RelativeToUnix(root: string, s: string)
    requires MountRoot(root)
    ensures Relative(s) ==> UnixBody(root, s) == Replace(s, '\\', '/')
    ensures Relative(s) <==> !("/" <= UnixBody(root, s))
  {
    if s != "" {
      ReplaceAt(s, '\\', '/', 0);
    }
    if "\\\\" <= s {
      assert s == Unc(s[2..]);
      UncToUnix(root, s[2..]);
    } else if Drive(s).Some? {
      var r := SkipSeparator(s[2..]);
      ReplaceAt(Joined(root + "/" + [Drive(s).value], r), '\\', '/', 0);
    }
  }

  /** In Windows mode no slash is left. */
  lemma NoSlashLeft(root: string, path: string)
    ensures '/' !in Windows(root, path, false)
  {
    var rest := Below(root, path);
    ReplaceAll(path, '/', '\\');
    if UncName(rest) {
      ReplaceAll("\\\\" + (if |rest| == 3 then "" else rest[4..]), '/', '\\');
    } else if DriveName(rest) {
      ReplaceAll(if |rest| == 1 then "" else rest[2..], '/', '\\');
    }
  }

  lemma DriveLetterFirst(root: string, path: string)
    ensures DriveName(Below(root, path)) ==> Windows(root, path, false) != "" && Alpha(Windows(root, path, false)[0])
  {
    if DriveName(Below(root, path)) {
      CaseBack(Below(root, path)[0]);
    }
  }

  /** The only current directories that make a relative path look long. */
  lemma DirReads(root: string, dir: string)
    requires MountRoot(root) && CurrentDir(dir) && Windows(root, dir, false) == "\\\\?"
    ensures dir == Share(root, "?") || dir == "/\\?"
  {
    var rest := Below(root, dir);
    DriveLetterFirst(root, dir);
    if UncName(rest) {
      var x := if |rest| == 3 then "" else rest[4..];
      ReplaceAt("\\\\" + x, '/', '\\', 2);
      assert rest == "wsl/" + x && x == "?" && dir == root + "/" + rest;
    } else {
      ReplaceAt(dir, '/', '\\', 0);
      ReplaceAt(dir, '/', '\\', 1);
      ReplaceAt(dir, '/', '\\', 2);
      assert |dir| == 3 && dir[2] == '?' && dir[1] == '\\';
      assert dir == [dir[0], dir[1], dir[2]];
    }
  }

  /** A backslash in second place: no mount root is above it. */
  lemma OddRootDir(root: string, t: string)
    requires MountRoot(root)
    ensures Windows(root, "/\\" + t, false) == Unc(Replace(t, '/', '\\'))
  {
    var p := "/\\" + t;
    assert p[0] == '/' && p[1] == '\\';
    assert (root + "/")[1] != '\\' by {
      assert |root| >= 2 ==> root[1] in root;
    }
    assert p[1..] == ['\\'] + t;
    ReplaceTail(['\\'], t, '/', '\\');
    assert ['\\'] + (['\\'] + Replace(t, '/', '\\')) == Unc(Replace(t, '/', '\\'));
  }

  lemma TailBack(c: char, s: string)
    requires '/' !in s && c != '/'
    ensures Replace([c, '/'] + Replace(s, '\\', '/'), '/', '\\') == [c, '\\'] + s
  {
    var t := ['/'] + Replace(s, '\\', '/');
    ReplaceBack(s, '\\', '/');
    assert t[1..] == Replace(s, '\\', '/');
    assert [c, '/'] + Replace(s, '\\', '/') == [c] + t;
    ReplaceTail([c], t, '/', '\\');
  }

  lemma DirMakesLong(root: string, dir: string, s: string)
    requires MountRoot(root) && CurrentDir(dir) && '/' !in s
    requires Windows(root, dir, false) == "\\\\?"
    ensures Windows(root, dir + "/" + Replace(s, '\\', '/'), false) == Unc("?\\" + s)
  {
    var t := Replace(s, '\\', '/');
    DirReads(root, dir);
    if dir == Share(root, "?") {
      assert dir + "/" + t == Share(root, "?/" + t);
      UncToWindows(root, "?/" + t, false);
      TailBack('?', s);
    } else {
      OddDirMakesLong(root, s);
    }
  }

  lemma OddDirMakesLong(root: string, s: string)
    requires MountRoot(root) && '/' !in s
    ensures Windows(root, "/\\?" + "/" + Replace(s, '\\', '/'), false) == Unc("?\\" + s)
  {
    hide Windows, Replace, Unc;
    var t := Replace(s, '\\', '/');
    assert "/\\?" + "/" + t == "/\\" + (['?', '/'] + t);
    OddRootDir(root, ['?', '/'] + t);
    TailBack('?', s);
  }

  lemma ShareMeansDir(root: string, dir: string, t: string, x: string)
    requires dir + "/" + t == Share(root, x) && |x| == |t| + 2 && x[0] == '?'
    ensures dir == Share(root, "?")
  {
    var p := Share(root, x);
    assert dir == p[..|dir|] && p[..|root| + 6] == Share(root, "?");
  }

  lemma ThreeMeansDir(dir: string, t: string, s: string)
    requires CurrentDir(dir) && |t| == |s|
    requires Replace(dir + "/" + t, '/', '\\') == Unc("?\\" + s)
    ensures dir == "/\\" + "?"
  {
    var p := dir + "/" + t;
    ReplaceAt(p, '/', '\\', 0);
    ReplaceAt(p, '/', '\\', 1);
    ReplaceAt(p, '/', '\\', 2);
    assert |dir| == 3 && p[0] == dir[0] && p[1] == dir[1] && p[2] == dir[2];
  }

  lemma LongMeansDir(root: string, dir: string, t: string, s: string)
    requires MountRoot(root) && CurrentDir(dir) && |t| == |s|
    requires Windows(root, dir + "/" + t, false) == Unc("?\\" + s)
    ensures Windows(root, dir, false) == "\\\\?"
  {
    hide Replace;
    var p := dir + "/" + t;
    var rest := Below(root, p);
    assert Unc("?\\" + s)[0] == '\\' && Unc("?\\" + s)[2] == '?';
    ReplaceNone("?", '/', '\\');
    DriveLetterFirst(root, p);
    if UncName(rest) {
      var x := if |rest| == 3 then "" else rest[4..];
      ReplaceAt("\\\\" + x, '/', '\\', 2);
      assert rest == "wsl/" + x && p == Share(root, x);
      ShareMeansDir(root, dir, t, x);
      UncToWindows(root, "?", false);
    } else {
      ThreeMeansDir(dir, t, s);
      OddRootDir(root, "?");
    }
  }

  /** A long path comes back from a current directory that itself looks like its prefix. */
  predicate Restored(root: string, cwd: Option<string>, pathMax: nat, s: string) {
    Relative(s) && cwd.Some? && |cwd.value + "/" + s| < pathMax && Windows(root, cwd.value, false) == "\\\\?"
  }

  /** \\u comes back from to_unix exactly if u has no slash and does not make it a long
      path, or what it is short for is restored by the current directory. */
  lemma UncThereAndBack(root: string, cwd: Option<string>, pathMax: nat, u: string)
    requires MountRoot(root) && (cwd.Some? ==> CurrentDir(cwd.value))
    ensures Translated(root, cwd, pathMax, Unix(root, Unc(u)), false) == Some(Unc(u)) <==>
            '/' !in u && ("?\\" <= u ==> Restored(root, cwd, pathMax, u[2..]))
  {
    UncStripped(u);
    if "?\\" <= u {
      LongThereAndBack(root, cwd, pathMax, u[2..]);
      assert u == "?\\" + u[2..];
    } else {
      UncTwice(root, u);
      ReplaceBack(u, '\\', '/');
      SameUnc(Back(u, '\\', '/'), u);
    }
  }

  lemma LongThereAndBack(root: string, cwd: Option<string>, pathMax: nat, s: string)
    requires MountRoot(root) && (cwd.Some? ==> CurrentDir(cwd.value))
    ensures Translated(root, cwd, pathMax, UnixBody(root, s), false) == Some(Unc("?\\" + s)) <==>
            '/' !in s && Restored(root, cwd, pathMax, s)
  {
    RelativeToUnix(root, s);
    var t := UnixBody(root, s);
    if !Relative(s) {
      GainsOne(root, s);
    } else if cwd.Some? && |cwd.value + "/" + t| < pathMax {
      var p := cwd.value + "/" + t;
      if Windows(root, p, false) == Unc("?\\" + s) {
        NoSlashLeft(root, p);
        assert forall i :: 0 <= i < |s| ==> s[i] == Unc("?\\" + s)[i + 4];
        LongMeansDir(root, cwd.value, t, s);
      }
      if '/' !in s && Windows(root, cwd.value, false) == "\\\\?" {
        DirMakesLong(root, cwd.value, s);
      }
    }
  }

  lemma BodyIsBounded(root: string, s: string)
    ensures |UnixBody(root, s)| <= |root| + 5 + |s|
  {
  }

  lemma SameShare(root: string, u: string, v: string)
    ensures Share(root, u) == Share(root, v) <==> u == v
  {
    assert Share(root, u)[|root| + 5..] == u && Share(root, v)[|root| + 5..] == v;
  }

  lemma ShareTwice(root: string, u: string, mixed: bool)
    requires MountRoot(root)
    ensures var w := Replace(u, '/', Separator(mixed));
            Unix(root, Windows(root, Share(root, u), mixed)) ==
            if "?\\" <= w then UnixBody(root, w[2..]) else Share(root, Replace(w, '\\', '/'))
  {
    UncToWindows(root, u, mixed);
    UncToUnix(root, Replace(u, '/', Separator(mixed)));
    UncStripped(Replace(u, '/', Separator(mixed)));
  }

  lemma LongPathMade(u: string, sep: char)
    requires sep == '\\' || sep == '/'
    ensures "?\\" <= Replace(u, '/', sep) <==> "?\\" <= u || (sep == '\\' && "?/" <= u)
  {
    if |u| >= 2 {
      ReplaceAt(u, '/', sep, 0);
      ReplaceAt(u, '/', sep, 1);
    }
  }

  /** A server's path comes back from to_windows exactly if it has no backslash and, when
      backslashes are made, does not become a long path. */
  lemma ShareThereAndBack(root: string, u: string, mixed: bool)
    requires MountRoot(root)
    ensures Unix(root, Windows(root, Share(root, u), mixed)) == Share(root, u) <==>
            '\\' !in u && (mixed || !("?/" <= u))
  {
    var w := Replace(u, '/', Separator(mixed));
    ShareTwice(root, u, mixed);
    LongPathMade(u, Separator(mixed));
    if "?\\" <= w {
      BodyIsBounded(root, w[2..]);
      assert "?\\" <= u ==> u[1] in u;
    } else {
      ReplaceBack(u, '/', '\\');
      ReplaceOwn(u);
      SameShare(root, u, Replace(w, '\\', '/'));
    }
  }

  // ------------------------------------------------------------------ the buffers

  /** A C string in a buffer. */
  ghost predicate Holds(a: array<char>, s: string)
    reads a
  {
    |s| < a.Length && a[..|s|] == s && a[|s|] == '\0'
  }

  predicate NoNul(s: string) {
    '\0' !in s
  }

  /** replace_sep, from `start` to the NUL. */
  method ReplaceSep(a: array<char>, start: nat, from: char, to: char, ghost s: string)
    requires start <= |s| && Holds(a, s) && NoNul(s) && from != '\0' && to != '\0'
    modifies a
    ensures Holds(a, s[..start] + Replace(s[start..], from, to))
  {
    var i := start;
    ghost var r := s[..start] + Replace(s[start..], from, to);
    assert forall k :: 0 <= k < |s| ==> s[k] in s;
    while a[i] != '\0'
      invariant start <= i <= |s| && a[|s|] == '\0'
      invariant a[..i] == r[..i]
      invariant forall k :: i <= k < |s| ==> a[k] == s[k] && s[k] != '\0'
      decreases |s| - i
    {
      ReplaceAt(s[start..], from, to, i - start);
      if a[i] == from {
        a[i] := to;
      }
      assert a[i] == r[i];
      i := i + 1;
    }
    assert r[..i] == r;
  }

  /** snprintf of one string: as much as fits, and a NUL. */
  method Print(output: array<char>, text: string) returns (fits: bool)
    modifies output
    ensures fits == (|text| < output.Length)
    ensures fits ==> Holds(output, text)
  {
    fits := |text| < output.Length;
    var i := 0;
    while i < |text| && i + 1 < output.Length
      invariant i <= |text| && i <= output.Length && (output.Length > 0 ==> i < output.Length)
      invariant forall k :: 0 <= k < i ==> output[k] == text[k]
    {
      output[i] := text[i];
      i := i + 1;
    }
    if output.Length > 0 {
      output[i] := '\0';
    }
    assert fits ==> i == |text| && output[..i] == text;
  }

  method PrintReplaced(output: array<char>, kept: string, text: string, from: char, to: char) returns (ok: bool)
    requires NoNul(kept) && NoNul(text) && from != '\0' && to != '\0'
    modifies output
    ensures ok == (|kept + text| < output.Length)
    ensures ok ==> Holds(output, kept + Replace(text, from, to))
  {
    ok := Print(output, kept + text);
    if ok {
      ghost var s := kept + text;
      assert s[..|kept|] == kept && s[|kept|..] == text;
      ReplaceSep(output, |kept|, from, to, s);
    }
  }

  /** to_windows: fails only if the path cannot be made absolute or does not fit. */
  method ToWindows(root: string, input: string, cwd: Option<string>, pathMax: nat, output: array<char>, mixed: bool) returns (ok: bool)
    requires NoNul(root) && NoNul(input) && (cwd.Some? ==> NoNul(cwd.value))
    modifies output
    ensures var result := Translated(root, cwd, pathMax, input, mixed);
            && (ok <==> result.Some? && |result.value| < output.Length)
            && (ok ==> Holds(output, result.value))
  {
    var absolute := Absolute(cwd, pathMax, input);
    if absolute.None? {
      return false;
    }
    var path := absolute.value;
    ok := Translate(root, path, output, mixed);
  }

  method Translate(root: string, path: string, output: array<char>, mixed: bool) returns (ok: bool)
    requires NoNul(root) && NoNul(path)
    modifies output
    ensures ok <==> |Windows(root, path, mixed)| < output.Length
    ensures ok ==> Holds(output, Windows(root, path, mixed))
  {
    var sep := Separator(mixed);
    if root != "" && root + "/" <= path {
      var rest := path[|root| + 1..];
      if "wsl" <= rest && (|rest| == 3 || rest[3] == '/') {
        var tail := if |rest| == 3 then "" else rest[4..];
        ok := PrintReplaced(output, "", "\\\\" + tail, '/', sep);
        assert "" + Replace("\\\\" + tail, '/', sep) == Replace("\\\\" + tail, '/', sep);
        return;
      }
      if rest != "" && Alpha(rest[0]) && (|rest| == 1 || rest[1] == '/') {
        var remainder := if |rest| == 1 then "" else rest[2..];
        ok := PrintReplaced(output, [ToUpper(rest[0]), ':', sep], remainder, '/', sep);
        return;
      }
    }
    ok := PrintReplaced(output, "", path, '/', sep);
    assert "" + Replace(path, '/', sep) == Replace(path, '/', sep);
  }

  /** to_unix: fails only if the path does not fit. */
  method ToUnix(root: string, input: string, output: array<char>) returns (ok: bool)
    requires NoNul(root) && NoNul(input)
    modifies output
    ensures ok <==> |Unix(root, input)| < output.Length
    ensures ok ==> Holds(output, Unix(root, input))
  {
    var s := input;
    if "\\\\?\\" <= s {
      s := s[4..];
    }
    var text := s;
    if "\\\\" <= s {
      text := root + "/wsl/" + s[2..];
    } else if |s| >= 2 && Alpha(s[0]) && s[1] == ':' {
      var rest := s[2..];
      if rest != "" && (rest[0] == '\\' || rest[0] == '/') {
        rest := rest[1..];
      }
      var drive := root + "/" + [ToLower(s[0])];
      text := if rest == "" then drive else drive + "/" + rest;
    }
    ok := PrintReplaced(output, "", text, '\\', '/');
    assert "" + Replace(text, '\\', '/') == Replace(text, '\\', '/');
  }
}
