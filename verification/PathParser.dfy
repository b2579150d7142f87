/** create_path: a slash-separated string as a list of components. */
module PathParser {
  import opened Mounts

  const LONGEST := 255

  /** The components that the rest `s` of the text gives, `current` being the one under way; at
      most `room` of them. A component of 255 characters is cut, and the character after it
      dropped. */
  function Parse(s: string, current: string, room: nat): Path
    decreases |s|
  {
    if s == "" || room == 0 then (if current != "" && room > 0 then [current] else [])
    else if s[0] == '/' || |current| >= LONGEST then [current] + Parse(s[1..], "", room - 1)
    else Parse(s[1..], current + [s[0]], room)
  }

  /** create_path; the first character is skipped whatever it is. */
  method CreatePath(s: string, depth: nat) returns (path: Path)
    requires s != ""
    ensures path == Parse(s[1..], "", depth)
    ensures |path| <= depth
  {
    if |s| == 1 {
      return [];
    }
    var components := new string[depth](_ => "");
    var component, componentsCount, i := "", 0, 1;
    while i < |s| && componentsCount < depth
      invariant 1 <= i <= |s| && componentsCount <= depth && |component| <= LONGEST
      invariant componentsCount == depth ==> component == ""
      invariant components[..componentsCount] + Parse(s[i..], component, depth - componentsCount) == Parse(s[1..], "", depth)
      decreases |s| - i
    {
      assert s[i..][0] == s[i] && s[i..][1..] == s[i + 1..];
      if s[i] == '/' || |component| >= LONGEST {
        ghost var rest := Parse(s[i + 1..], "", depth - componentsCount - 1);
        assert components[..componentsCount] + ([component] + rest) == (components[..componentsCount] + [component]) + rest;
        components[componentsCount] := component;
        componentsCount := componentsCount + 1;
        assert components[..componentsCount] == components[..componentsCount - 1] + [component];
        component := "";
      } else {
        component := component + [s[i]];
      }
      i := i + 1;
    }
    if component != "" {
      components[componentsCount] := component;
      componentsCount := componentsCount + 1;
      assert components[..componentsCount] == components[..componentsCount - 1] + [component];
    }
    path := components[..componentsCount];
  }

  // ---- Round trip ----

  /** A path as text: each component after a slash, or a lone slash. */
  function Text(p: Path): string {
    if p == [] then "" else "/" + p[0] + Text(p[1..])
  }

  function Render(p: Path): string { if p == [] then "/" else Text(p) }

  predicate PlainComponent(c: string) { |c| <= 255 && '/' !in c }

  /** No component contains a slash or is longer than a component may be. */
  ghost predicate Plain(p: Path) {
    forall i :: 0 <= i < |p| ==> PlainComponent(p[i])
  }

  /** Up to the next slash or the end, characters are collected into the component under way. */
  lemma {:induction false} Collect(more: string, rest: string, current: string, room: nat)
    requires '/' !in more && |current + more| <= LONGEST && room > 0
    ensures Parse(more + rest, current, room) == Parse(rest, current + more, room)
    decreases |more|
  {
    if more == "" {
      assert current + more == current && more + rest == rest;
    } else {
      assert (more + rest)[1..] == more[1..] + rest;
      Collect(more[1..], rest, current + [more[0]], room);
      assert current + [more[0]] + more[1..] == current + more;
    }
  }

  /** The last component, if it is not empty. */
  function Ended(p: Path): Path {
    if p != [] && p[|p| - 1] == "" then p[..|p| - 1] else p
  }

  /** Reading the text of a path gives the path back, without a last component that is empty. */
  lemma {:induction false} ParseText(p: Path, room: nat)
    requires p != [] && Plain(p) && |p| <= room
    ensures Parse(Text(p)[1..], "", room) == Ended(p)
    decreases |p|
  {
    FirstComponent(p, room);
    if |p| > 1 {
      ParseText(p[1..], room - 1);
      EndedStep(p);
    }
  }

  lemma {:induction false} FirstComponent(p: Path, room: nat)
    requires p != [] && |p[0]| <= LONGEST && '/' !in p[0] && room > 0
    ensures Parse(Text(p)[1..], "", room)
         == if |p| > 1 then [p[0]] + Parse(Text(p[1..])[1..], "", room - 1) else Ended(p)
  {
    var c, rest := p[0], Text(p[1..]);
    assert Text(p)[1..] == c + rest;
    assert "" + c == c;
    Collect(c, rest, "", room);
  }

  lemma EndedStep(p: Path)
    requires |p| > 1
    ensures Ended(p) == [p[0]] + Ended(p[1..])
  {
  }

  /** Whatever the text, its components are few enough, short enough and without slashes. */
  lemma {:induction false} ParsedIsPlain(s: string, current: string, room: nat)
    requires PlainComponent(current)
    ensures Plain(Parse(s, current, room)) && |Parse(s, current, room)| <= room
    decreases |s|
  {
    if s != "" && room > 0 {
      if s[0] == '/' || |current| >= LONGEST {
        ParsedIsPlain(s[1..], "", room - 1);
      } else {
        ParsedIsPlain(s[1..], current + [s[0]], room);
      }
    }
  }

  /** For every path: create_path reads its text back exactly when it has no more components than asked
      for, each is at most 255 characters long and without a slash, and the last one is not empty. */
  lemma {:induction false} RoundTripExactly(p: Path, depth: nat)
    ensures Render(p) != ""
    ensures Parse(Render(p)[1..], "", depth) == p <==>
            |p| <= depth && Plain(p) && (p == [] || p[|p| - 1] != "")
  {
    ParsedIsPlain(Render(p)[1..], "", depth);
    if p != [] && Plain(p) && |p| <= depth {
      ParseText(p, depth);
    }
  }

  /** A component ends after 255 characters; the character after those is lost, whatever it is. */
  lemma {:induction false} LongIsCut(c: string, lost: char, rest: string, room: nat)
    requires |c| == 255 && '/' !in c && room > 0
    ensures Parse(c + [lost] + rest, "", room) == [c] + Parse(rest, "", room - 1)
  {
    assert c + [lost] + rest == c + ([lost] + rest);
    assert "" + c == c;
    Collect(c, [lost] + rest, "", room);
    assert ([lost] + rest)[1..] == rest;
  }

  /** "/a/" and "/a" parse alike. */
  lemma TrailingSlashLost()
    ensures Render(["a", ""]) == "/a/" && Parse(Render(["a", ""])[1..], "", 2) == ["a"] == Parse(Render(["a"])[1..], "", 2)
  {
    assert ["a", ""][1..] == [""] && [""][1..] == [] && ["a"][1..] == [];
    ParseText(["a", ""], 2);
    ParseText(["a"], 2);
    assert Text([""]) == "/";
  }
}
