/**
 * The "go to activity" button: the class name of the resumed activity, cut out of
 * the output of `dumpsys activity top`. Looking the class up in the project and
 * opening its file are left out; this module ends with the name that is looked up.
 */
module Activity {
  import opened JavaStrings

  /** The text that precedes the activity's component name in the dump. */
  const ActivityMarker := "ACTIVITY "

  /** Where the component name is taken from: 9 characters after the first marker, 8 without one. */
  function ActivityStart(output: string): (start: int)
    ensures start >= 8
    ensures start == 8 <==> forall j :: !OccursAt(output, ActivityMarker, j)
    ensures start > 8 ==>
      (OccursAt(output, ActivityMarker, start - 9) && forall j :: 0 <= j < start - 9 ==> !OccursAt(output, ActivityMarker, j))
  {
    IndexOf(output, ActivityMarker) + 9
  }

  /**
   * The component name `pkg/cls`: the text from ActivityStart up to the next space.
   * It throws when the start lies past the end or no space follows it.
   */
  function ActivityToken(output: string): (r: Result<string>)
    ensures var start := ActivityStart(output);
      && (r.Ok? <==> start <= |output| && ' ' in output[start..])
      && (r.Ok? ==> ' ' !in r.value && r.value + " " <= output[start..])
  {
    match SubstringFrom(output, ActivityStart(output))
    case OutOfBounds => OutOfBounds
    case Ok(activity) =>
      IndexOfChar(activity, ' ');
      Substring(activity, 0, IndexOf(activity, " "))
  }

  /**
   * The class named by a component `pkg/cls`: the class after the first '/',
   * prefixed by the package when it starts with '.'. It throws without a '/'.
   */
  function QualifiedClassName(activity: string): (r: Result<string>)
    ensures r.Ok? <==> '/' in activity
  {
    IndexOfChar(activity, '/');
    var slash := IndexOf(activity, "/");
    match Substring(activity, 0, slash)
    case OutOfBounds => OutOfBounds
    case Ok(pkg) =>
      match SubstringFrom(activity, slash + 1)
      case OutOfBounds => OutOfBounds
      case Ok(clz) => Ok(if StartsWith(clz, ".") then pkg + clz else clz)
  }

  /** Splitting `pkg/cls` at its first '/' recovers the package and the class. */
  lemma QualifiedClassNameOf(pkg: string, clz: string)
    requires '/' !in pkg
    ensures QualifiedClassName(pkg + "/" + clz) == Ok(if StartsWith(clz, ".") then pkg + clz else clz)
  {
    var activity := pkg + "/" + clz;
    FirstSlash(pkg, clz);
    var slash := IndexOf(activity, "/");
    assert activity[..|pkg|] == pkg;
    assert activity[|pkg| + 1..|activity|] == clz;
    assert Substring(activity, 0, slash) == Ok(pkg);
    assert SubstringFrom(activity, slash + 1) == Ok(clz);
  }

  /** The first '/' of `pkg/cls` is the one after the package. */
  lemma FirstSlash(pkg: string, clz: string)
    requires '/' !in pkg
    ensures IndexOf(pkg + "/" + clz, "/") == |pkg|
  {
    var activity := pkg + "/" + clz;
    IndexOfChar(activity, '/');
    assert "/" == ['/'];
    assert activity[|pkg|] == '/';
    assert activity[..|pkg|] == pkg;
  }

  /** Lines 256-262 together: the class name the button looks up. */
  function ActivityClassName(output: string): (r: Result<string>)
    ensures r.Ok? <==> ActivityToken(output).Ok? && '/' in ActivityToken(output).value
  {
    match ActivityToken(output)
    case OutOfBounds => OutOfBounds
    case Ok(activity) => QualifiedClassName(activity)
  }

  /**
   * The class the button navigates to: none when the command gave no output
   * (null) or when cutting the name out of the output throws.
   */
  function ClassToOpen(output: Option<string>): (r: Option<string>)
    ensures r.Some? <==> output.Some? && ActivityClassName(output.value).Ok?
    ensures r.Some? ==> ActivityClassName(output.value) == Ok(r.value)
  {
    if output.None? then None
    else match ActivityClassName(output.value)
      case OutOfBounds => None
      case Ok(clz) => Some(clz)
  }

  /**
   * For a dump whose first marker is followed by `pkg/cls` and a space, the
   * button looks up `cls`, qualified by `pkg` when `cls` starts with '.'.
   */
  lemma ActivityClassNameOf(before: string, pkg: string, clz: string, after: string)
    requires forall j :: 0 <= j < |before| ==> !OccursAt(before + ActivityMarker, ActivityMarker, j)
    requires '/' !in pkg && ' ' !in pkg && ' ' !in clz
    ensures ActivityClassName(before + ActivityMarker + pkg + "/" + clz + " " + after) ==
      Ok(if StartsWith(clz, ".") then pkg + clz else clz)
  {
    var token := pkg + "/" + clz;
    var output := before + ActivityMarker + pkg + "/" + clz + " " + after;
    assert output == before + ActivityMarker + (token + " " + after);
    MarkerStart(before, token + " " + after);
    assert output[|before| + 9..] == token + " " + after;
    TokenAt(output, token, after);
    QualifiedClassNameOf(pkg, clz);
  }

  /** The first marker right after `before` puts the start 9 characters past it. */
  lemma MarkerStart(before: string, rest: string)
    requires forall j :: 0 <= j < |before| ==> !OccursAt(before + ActivityMarker, ActivityMarker, j)
    ensures ActivityStart(before + ActivityMarker + rest) == |before| + 9
  {
    var head := before + ActivityMarker;
    var output := head + rest;
    assert output == before + ActivityMarker + rest;
    assert OccursAt(output, ActivityMarker, |before|) by {
      assert output[|before|..|before| + 9] == head[|before|..];
    }
    forall j | 0 <= j < |before|
      ensures !OccursAt(output, ActivityMarker, j)
    {
      assert !OccursAt(head, ActivityMarker, j);
      assert output[j..j + 9] == head[j..j + 9];
    }
  }

  /** The component name is the word that starts at ActivityStart. */
  lemma TokenAt(output: string, token: string, after: string)
    requires 0 <= ActivityStart(output) <= |output|
    requires output[ActivityStart(output)..] == token + " " + after
    requires ' ' !in token
    ensures ActivityToken(output) == Ok(token)
  {
    var rest := output[ActivityStart(output)..];
    assert output[ActivityStart(output)..|output|] == rest;
    assert SubstringFrom(output, ActivityStart(output)) == Ok(rest);
    CutAtSpace(rest, token, after);
  }

  /** Cutting a text up to its first space gives the word before that space. */
  lemma CutAtSpace(rest: string, token: string, after: string)
    requires rest == token + " " + after
    requires ' ' !in token
    ensures IndexOf(rest, " ") == |token|
    ensures Substring(rest, 0, |token|) == Ok(token)
  {
    IndexOfChar(rest, ' ');
    assert rest[|token|] == ' ';
    assert rest[..|token|] == token;
  }
}
