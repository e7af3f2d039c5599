/** The dashboard's section routing: `_route_to_section` and the
    `nav_callback` mapping of dashboard/dashboard_view.py, and the
    sidebar's `_normalize_route` of ui/sidebar_ui.py. The two classifiers
    match differently (whole "/"-separated segments against substrings of
    the lower-cased route) and fall back to different sections. */
module Routes {
  import opened Wrappers
  import opened Text
  import opened Tables

  const AttendanceSection: string := "attendance"
  const StudentsSection: string := "students"
  const SettingsSection: string := "settings"
  const LogoutName: string := "logout"

  /** One of the three section names. */
  predicate IsSection(s: string)
  {
    s == AttendanceSection || s == StudentsSection || s == SettingsSection
  }

  function IsSectionFn(): string -> bool
  {
    (p: string) => IsSection(p)
  }

  /** `route or ""`: a missing route reads as the empty one. */
  function OrEmpty(route: Option<string>): string
  {
    match route
    case None => ""
    case Some(s) => s
  }

  // ---------------------------------------------------------------
  // dashboard_view._route_to_section
  // ---------------------------------------------------------------

  /** A missing or empty route is the students section; otherwise the first
      "/"-separated segment that is a section name, or students when no
      segment is one. */
  function RouteToSection(route: Option<string>): (r: string)
    ensures IsSection(r)
  {
    var s := OrEmpty(route);
    if s == [] then StudentsSection
    else
      var parts := Split(s, '/');
      match FirstWhere(parts, IsSectionFn())
      case Some(k) => parts[k]
      case None => StudentsSection
  }

  /** The section found is a whole segment of the route, and no earlier
      segment is a section name; students is the answer exactly when it is
      such a segment, or no segment is a section name. */
  lemma RouteToSectionSpec(route: string, section: string)
    requires route != [] && IsSection(section)
    ensures (RouteToSection(Some(route)) == section)
              <==> (exists k :: 0 <= k < |Split(route, '/')| && Split(route, '/')[k] == section
                      && forall j :: 0 <= j < k ==> !IsSection(Split(route, '/')[j]))
                   || (section == StudentsSection
                       && forall j :: 0 <= j < |Split(route, '/')| ==> !IsSection(Split(route, '/')[j]))
  {
    var parts := Split(route, '/');
    var found := FirstWhere(parts, IsSectionFn());
    assert RouteToSection(Some(route)) == if found.Some? then parts[found.value] else StudentsSection;
    if found.Some? {
      var k := found.value;
      assert IsSection(parts[k]);
      assert forall j :: 0 <= j < k ==> !IsSection(parts[j]) by {
        forall j | 0 <= j < k
          ensures !IsSection(parts[j])
        {
          assert !IsSectionFn()(parts[j]);
        }
      }
    } else {
      assert forall j :: 0 <= j < |parts| ==> !IsSection(parts[j]) by {
        forall j | 0 <= j < |parts|
          ensures !IsSection(parts[j])
        {
          assert !IsSectionFn()(parts[j]);
        }
      }
    }
    forall k | 0 <= k < |parts| && parts[k] == section
               && (forall j :: 0 <= j < k ==> !IsSection(parts[j]))
      ensures found == Some(k)
    {
      FirstWhereAt(parts, IsSectionFn(), k);
    }
  }

  /** A route of one segment, with or without a leading '/', is that
      segment's section, or the students section when the segment is no
      section name. */
  lemma OneSegmentRoute(seg: string)
    requires seg != [] && '/' !in seg
    ensures RouteToSection(Some(seg)) == if IsSection(seg) then seg else StudentsSection
    ensures RouteToSection(Some("/" + seg)) == if IsSection(seg) then seg else StudentsSection
  {
    SplitNoSeparator(seg, '/');
    SplitFirstPiece("", '/', seg);
    assert "/" + seg == "" + ['/'] + seg;
    assert Split("/" + seg, '/') == ["", seg];
    assert !IsSection("");
    if IsSection(seg) {
      FirstWhereAt([seg], IsSectionFn(), 0);
      FirstWhereAt(["", seg], IsSectionFn(), 1);
    } else {
      assert !IsSectionFn()(seg);
      assert FirstWhere([seg], IsSectionFn()).None?;
      assert FirstWhere(["", seg], IsSectionFn()).None?;
    }
  }

  /** Each section's own route, with or without the leading '/', is
      classified as that section. */
  lemma RouteToSectionOfSection(section: string)
    requires IsSection(section)
    ensures RouteToSection(Some(section)) == section
    ensures RouteToSection(Some("/" + section)) == section
  {
    assert section != [] && '/' !in section;
    OneSegmentRoute(section);
  }

  // ---------------------------------------------------------------
  // sidebar_ui._normalize_route
  // ---------------------------------------------------------------

  /** The lower-cased route is searched for "attendance", then "settings",
      then "students" as substrings; anything else, and a missing route,
      is the attendance section. */
  function NormalizeRoute(route: Option<string>): (r: string)
    ensures IsSection(r)
  {
    var s := Lower(OrEmpty(route));
    if Contains(s, AttendanceSection) then AttendanceSection
    else if Contains(s, SettingsSection) then SettingsSection
    else if Contains(s, StudentsSection) then StudentsSection
    else AttendanceSection
  }

  /** Each section's answer, stated as when it is given: attendance wins
      over the others and is the fallback, settings wins over students. */
  lemma NormalizeRouteSpec(route: Option<string>)
    ensures var s := Lower(OrEmpty(route));
      && ((NormalizeRoute(route) == SettingsSection)
            <==> (!Contains(s, AttendanceSection) && Contains(s, SettingsSection)))
      && ((NormalizeRoute(route) == StudentsSection)
            <==> (!Contains(s, AttendanceSection) && !Contains(s, SettingsSection)
                  && Contains(s, StudentsSection)))
      && ((NormalizeRoute(route) == AttendanceSection)
            <==> (Contains(s, AttendanceSection)
                  || (!Contains(s, SettingsSection) && !Contains(s, StudentsSection))))
  {
  }

  /** Letter case does not matter to the sidebar. */
  lemma NormalizeRouteIgnoresCase(route: string)
    ensures NormalizeRoute(Some(Lower(route))) == NormalizeRoute(Some(route))
  {
    LowerIdempotent(route);
  }

  /** Each section's own route, with or without the leading '/', is
      classified as that section. */
  lemma NormalizeRouteOfSection(section: string)
    requires IsSection(section)
    ensures NormalizeRoute(Some(section)) == section
    ensures NormalizeRoute(Some("/" + section)) == section
  {
    var slashed := "/" + section;
    LowerOfSection(section);
    if section == AttendanceSection {
      ContainsAt(section, AttendanceSection, 0);
      ContainsAt(slashed, AttendanceSection, 1);
    } else {
      assert 'a' !in section && 'a' !in slashed;
      NotContainsMissingChar(section, AttendanceSection, 0);
      NotContainsMissingChar(slashed, AttendanceSection, 0);
      if section == SettingsSection {
        ContainsAt(section, SettingsSection, 0);
        ContainsAt(slashed, SettingsSection, 1);
      } else {
        assert 'g' !in section && 'g' !in slashed;
        NotContainsMissingChar(section, SettingsSection, 6);
        NotContainsMissingChar(slashed, SettingsSection, 6);
        ContainsAt(section, StudentsSection, 0);
        ContainsAt(slashed, StudentsSection, 1);
      }
    }
  }

  /** Section names, with or without a leading '/', are already lower case. */
  lemma LowerOfSection(section: string)
    requires IsSection(section)
    ensures Lower(section) == section
    ensures Lower("/" + section) == "/" + section
  {
    var slashed := "/" + section;
    assert forall i :: 0 <= i < |section| ==> !('A' <= section[i] <= 'Z');
    assert forall i :: 0 <= i < |slashed| ==> !('A' <= slashed[i] <= 'Z');
  }

  // ---------------------------------------------------------------
  // How the two classifiers differ
  // ---------------------------------------------------------------

  /** The fallbacks differ: a route that names no section is the students
      section to the dashboard and the attendance section to the sidebar. */
  lemma DefaultsDiffer(route: Option<string>)
    requires forall j :: 0 <= j < |Split(OrEmpty(route), '/')| ==> !IsSection(Split(OrEmpty(route), '/')[j])
    requires var s := Lower(OrEmpty(route));
      !Contains(s, AttendanceSection) && !Contains(s, SettingsSection) && !Contains(s, StudentsSection)
    ensures RouteToSection(route) == StudentsSection
    ensures NormalizeRoute(route) == AttendanceSection
  {
    var parts := Split(OrEmpty(route), '/');
    if OrEmpty(route) != [] {
      assert FirstWhere(parts, IsSectionFn()).None?;
    }
  }

  /** A segment that merely starts with "attendance", such as
      "/attendances", is not the attendance section to the dashboard, which
      matches whole segments, but is to the sidebar, which matches
      substrings. */
  lemma SegmentAgainstSubstring(x: string)
    requires x != [] && '/' !in x
    ensures RouteToSection(Some("/" + AttendanceSection + x)) == StudentsSection
    ensures NormalizeRoute(Some("/" + AttendanceSection + x)) == AttendanceSection
  {
    var seg := AttendanceSection + x;
    var route := "/" + AttendanceSection + x;
    assert route == "/" + seg;
    assert RouteToSection(Some(route)) == StudentsSection by {
      assert '/' !in seg;
      assert !IsSection(seg) by {
        assert |seg| > |AttendanceSection| > |StudentsSection| == |SettingsSection|;
      }
      OneSegmentRoute(seg);
    }
    assert NormalizeRoute(Some(route)) == AttendanceSection by {
      var low := Lower(route);
      assert low[1..11] == AttendanceSection by {
        assert forall i :: 1 <= i < 11 ==> route[i] == AttendanceSection[i - 1];
      }
      ContainsAt(low, AttendanceSection, 1);
    }
  }

  // ---------------------------------------------------------------
  // dashboard_view.nav_callback
  // ---------------------------------------------------------------

  /** What a sidebar click does: go to a route, or log out. */
  datatype NavAction = Go(route: string) | Logout

  /** `nav_callback(name)`: the name without its leading '/'s; the empty
      name and any name it does not know go to the attendance route. */
  function NavTarget(name: Option<string>): (a: NavAction)
  {
    var n := TrimStartChar(OrEmpty(name), '/');
    if n == AttendanceSection || n == "" then Go("/" + AttendanceSection)
    else if n == StudentsSection then Go("/" + StudentsSection)
    else if n == SettingsSection then Go("/" + SettingsSection)
    else if n == LogoutName then Logout
    else Go("/" + AttendanceSection)
  }

  /** Logging out happens exactly for the name "logout" after the leading
      '/'s; every other name goes to the route of a section, the section
      itself when the name is one and the attendance section otherwise. */
  lemma NavTargetSpec(name: Option<string>)
    ensures var n := TrimStartChar(OrEmpty(name), '/');
      && ((NavTarget(name) == Logout) <==> (n == LogoutName))
      && (NavTarget(name).Go? ==>
            NavTarget(name).route == "/" + (if IsSection(n) then n else AttendanceSection))
  {
  }

  /** Leading slashes do not matter to the navigation. */
  lemma NavTargetIgnoresSlash(name: string)
    ensures NavTarget(Some("/" + name)) == NavTarget(Some(name))
  {
    assert OrEmpty(Some("/" + name)) == ['/'] + name;
    TrimStartCharCons(name, '/');
  }

  /** Dropping the leading `c`s of `c` followed by `s` drops those of `s`. */
  lemma TrimStartCharCons(s: string, c: char)
    ensures TrimStartChar([c] + s, c) == TrimStartChar(s, c)
  {
    var t := [c] + s;
    assert SkipChar(t, c, 0) == SkipChar(t, c, 1);
    SkipCharShift(s, c, 0);
    assert t[SkipChar(s, c, 0) + 1..] == s[SkipChar(s, c, 0)..];
  }

  lemma {:induction false} SkipCharShift(s: string, c: char, i: nat)
    requires i <= |s|
    ensures SkipChar([c] + s, c, i + 1) == SkipChar(s, c, i) + 1
    decreases |s| - i
  {
    var t := [c] + s;
    assert t[i + 1..] == s[i..];
    if i < |s| && s[i] == c {
      assert t[i + 1] == s[i];
      SkipCharShift(s, c, i + 1);
    } else if i < |s| {
      assert t[i + 1] == s[i];
    }
  }

  /** Every route the navigation goes to is classified as the same
      section by both the dashboard and the sidebar. */
  lemma NavRouteAgrees(name: Option<string>)
    requires NavTarget(name).Go?
    ensures var route := NavTarget(name).route;
      exists section :: IsSection(section) && route == "/" + section
        && RouteToSection(Some(route)) == section && NormalizeRoute(Some(route)) == section
  {
    var n := TrimStartChar(OrEmpty(name), '/');
    var section := if IsSection(n) then n else AttendanceSection;
    NavTargetSpec(name);
    RouteToSectionOfSection(section);
    NormalizeRouteOfSection(section);
  }
}
