/** Removal of dot segments: section 5.2.4 of RFC 3986, and the in-place loop of the URI class. */
module UriPath {
  // ---- the standard's function

  predicate StartsWith(s: string, prefix: string) {
    |prefix| <= |s| && forall k :: 0 <= k < |prefix| ==> s[k] == prefix[k]
  }

  /** The end of the segment at i: the next slash, or the end. */
  function SegmentEnd(s: string, i: nat): (j: nat)
    requires i <= |s|
    ensures i <= j <= |s| && (j < |s| ==> s[j] == '/') && forall k :: i <= k < j ==> s[k] != '/'
    decreases |s| - i
  {
    if i == |s| || s[i] == '/' then i else SegmentEnd(s, i + 1)
  }

  /** The output without its last segment and the slash before it. */
  function RemoveLast(out: string): (r: string)
    ensures |r| <= |out| && r == out[..|r|] && (|r| < |out| && out[0] == '/' ==> out[|r|] == '/')
    ensures out != "" ==> |r| < |out|
    ensures forall k :: |r| < k < |out| ==> out[k] != '/'
  {
    if out == "" then ""
    else if out[|out| - 1] == '/' then out[..|out| - 1]
    else RemoveLast(out[..|out| - 1])
  }

  /** Where the first segment of the input ends, its leading slash included. */
  function FirstSegment(input: string): (j: nat)
    requires input != ""
    ensures 0 < j <= |input|
  {
    if input[0] == '/' then SegmentEnd(input, 1) else SegmentEnd(input, 0)
  }

  /** remove_dot_segments, steps A to E. */
  function RemoveDots(input: string, out: string): string
    decreases |input|
  {
    if input == "" then out
    else if StartsWith(input, "../") then RemoveDots(input[3..], out)
    else if StartsWith(input, "./") then RemoveDots(input[2..], out)
    else if StartsWith(input, "/./") then RemoveDots("/" + input[3..], out)
    else if input == "/." then RemoveDots("/", out)
    else if StartsWith(input, "/../") then RemoveDots("/" + input[4..], RemoveLast(out))
    else if input == "/.." then RemoveDots("/", RemoveLast(out))
    else if input == "." || input == ".." then out
    else RemoveDots(input[FirstSegment(input)..], out + input[..FirstSegment(input)])
  }

  // ---- one segment at a time

  predicate NoSlash(s: string) { '/' !in s }

  /** Empty, or the start of another segment. */
  predicate Tail(s: string) { s == "" || s[0] == '/' }

  lemma {:induction false} SegmentEndIs(s: string, i: nat, j: nat)
    requires i <= j <= |s| && (j < |s| ==> s[j] == '/') && forall k :: i <= k < j ==> s[k] != '/'
    ensures SegmentEnd(s, i) == j
    decreases j - i
  {
    if i < j { SegmentEndIs(s, i + 1, j); }
  }

  lemma CurrentSegment(tail: string, out: string)
    requires Tail(tail)
    ensures RemoveDots("/." + tail, out) == if tail == "" then out + "/" else RemoveDots(tail, out)
  {
    var input := "/." + tail;
    assert input[0] == '/' && input[1] == '.';
    if tail == "" {
      JustSlash(out);
      assert input == "/.";
    } else {
      assert input[2] == '/' && input[2..] == tail;
      assert StartsWith(input, "/./") && "/" + input[3..] == tail;
    }
  }

  lemma ParentSegment(tail: string, out: string)
    requires Tail(tail)
    ensures RemoveDots("/.." + tail, out)
            == if tail == "" then RemoveLast(out) + "/" else RemoveDots(tail, RemoveLast(out))
  {
    var input := "/.." + tail;
    assert input[0] == '/' && input[1] == '.' && input[2] == '.';
    if tail == "" {
      JustSlash(RemoveLast(out));
      assert input == "/..";
    } else {
      assert input[3] == '/' && input[3..] == tail;
      assert StartsWith(input, "/../") && "/" + input[4..] == tail;
    }
  }

  /** What the standard does with one segment of an absolute path. */
  lemma OneSegment(seg: string, tail: string, out: string)
    requires NoSlash(seg) && Tail(tail)
    ensures RemoveDots("/" + seg + tail, out) ==
            if seg == "." || seg == ".." then
              var kept := if seg == ".." then RemoveLast(out) else out;
              if tail == "" then kept + "/" else RemoveDots(tail, kept)
            else RemoveDots(tail, out + "/" + seg)
  {
    hide RemoveDots, RemoveLast;
    if seg == "." {
      CurrentSegment(tail, out);
      assert "/" + seg + tail == "/." + tail;
    } else if seg == ".." {
      ParentSegment(tail, out);
      assert "/" + seg + tail == "/.." + tail;
    } else {
      OtherSegment(seg, tail, out);
    }
  }

  lemma OtherSegment(seg: string, tail: string, out: string)
    requires NoSlash(seg) && Tail(tail) && seg != "." && seg != ".."
    ensures RemoveDots("/" + seg + tail, out) == RemoveDots(tail, out + "/" + seg)
  {
    var input := "/" + seg + tail;
    assert input[0] == '/';
    SegmentEndIs(input, 1, 1 + |seg|);
    NotDots(seg, tail);
    assert input[1 + |seg|..] == tail && input[..1 + |seg|] == "/" + seg;
    assert out + ("/" + seg) == out + "/" + seg;
  }

  lemma {:induction false} LastOf(out: string, seg: string)
    requires NoSlash(seg)
    ensures RemoveLast(out + "/" + seg) == out
  {
    var whole := out + "/" + seg;
    if seg == "" {
      assert whole[|whole| - 1] == '/' && whole[..|whole| - 1] == out;
    } else {
      var front := seg[..|seg| - 1];
      assert whole[|whole| - 1] == seg[|seg| - 1] && whole[..|whole| - 1] == out + "/" + front;
      LastOf(out, front);
    }
  }

  lemma NothingToRemove(out: string)
    ensures RemoveDots("", out) == out
  {
  }

  /** The first example of section 5.2.4 of RFC 3986: /a/b/c/./../../g is /a/g. */
  lemma AbsoluteExample()
    ensures RemoveDots("/a/b/c/./../../g", "") == "/a/g"
  {
    hide RemoveDots, RemoveLast, Tail;
    var g := "/" + "g" + "";
    var up := "/" + ".." + g;
    var upup := "/" + ".." + up;
    var dot := "/" + "." + upup;
    var c := "/" + "c" + dot;
    var b := "/" + "b" + c;
    TailsStart(g, up, upup, dot, c, b);
    var a := "" + "/" + "a";
    OneSegment("a", b, "");
    OneSegment("b", c, a);
    OneSegment("c", dot, a + "/" + "b");
    OneSegment(".", upup, a + "/" + "b" + "/" + "c");
    OneSegment("..", up, a + "/" + "b" + "/" + "c");
    LastOf(a + "/" + "b", "c");
    OneSegment("..", g, a + "/" + "b");
    LastOf(a, "b");
    OneSegment("g", "", a);
    NothingToRemove(a + "/" + "g");
    assert "/" + "a" + b == "/a/b/c/./../../g";
  }

  lemma TailsStart(g: string, up: string, upup: string, dot: string, c: string, b: string)
    requires g == "/" + "g" + "" && up == "/" + ".." + g && upup == "/" + ".." + up && dot == "/" + "." + upup
    requires c == "/" + "c" + dot && b == "/" + "b" + c
    ensures Tail(g) && Tail(up) && Tail(upup) && Tail(dot) && Tail(c) && Tail(b) && Tail("")
  {
  }

  /** The second one: mid/content=5/../6 is mid/6. */
  lemma RelativeExample()
    ensures RemoveDots("mid/content=5/../6", "") == "mid/6"
  {
    hide RemoveDots, RemoveLast, Tail;
    var six := "/" + "6" + "";
    var up := "/" + ".." + six;
    assert Tail(six) && Tail(up) && Tail("") by { SlashStarts("6", ""); SlashStarts("..", six); }
    var content := "/" + "content=5" + up;
    SlashStarts("content=5", up);
    FirstOfRelative("mid", content, "");
    var mid := "" + "mid";
    OneSegment("content=5", up, mid);
    OneSegment("..", six, mid + "/" + "content=5");
    LastOf(mid, "content=5");
    OneSegment("6", "", mid);
    NothingToRemove(mid + "/" + "6");
    assert "mid" + content == "mid/content=5/../6";
  }

  lemma SlashStarts(seg: string, tail: string)
    ensures Tail("/" + seg + tail) && Tail("")
  {
  }

  /** What the standard does with the first segment of a path that does not start with a slash. */
  lemma FirstOfRelative(seg: string, tail: string, out: string)
    requires seg != "" && NoSlash(seg) && Tail(tail)
    ensures RemoveDots(seg + tail, out) ==
            if seg == "." || seg == ".." then (if tail == "" then out else RemoveDots(tail[1..], out))
            else RemoveDots(tail, out + seg)
  {
    var input, n := seg + tail, |seg|;
    assert input[0] == seg[0] && (n > 1 ==> input[1] == seg[1]) && (n < |input| ==> input[n] == '/');
    if seg == "." || seg == ".." {
      if tail == "" { assert input == seg; } else { assert input[n + 1..] == tail[1..]; }
    } else {
      NoDotStart(seg, tail);
      SegmentEndIs(input, 0, n);
      assert input[n..] == tail && input[..n] == seg;
    }
  }

  lemma NoDotStart(seg: string, tail: string)
    requires seg != "" && NoSlash(seg) && Tail(tail) && seg != "." && seg != ".."
    ensures var input := seg + tail;
            && input[0] != '/' && !StartsWith(input, "../") && !StartsWith(input, "./")
            && input != "." && input != ".." && input != "/." && input != "/.."
  {
    var input := seg + tail;
    assert forall k :: 0 <= k < |seg| ==> input[k] == seg[k] && seg[k] != '/';
    assert tail != "" ==> input[|seg|] == '/';
    if |seg| == 1 {
      assert seg == [seg[0]] && seg[0] != '.';
      assert input[0] != '.';
    } else if |seg| == 2 {
      assert seg == [seg[0], seg[1]] && (seg[0] != '.' || seg[1] != '.');
      assert input[0] != '.' || input[1] != '.';
    } else {
      assert input[2] != '/';
    }
    if tail == "" { assert input == seg; }
  }

  lemma JustSlash(out: string)
    ensures RemoveDots("/", out) == out + "/"
  {
    assert FirstSegment("/") == 1;
    assert "/"[1..] == "" && "/"[..1] == "/";
  }

  lemma NotDots(seg: string, tail: string)
    requires NoSlash(seg) && Tail(tail) && seg != "." && seg != ".."
    ensures var input := "/" + seg + tail;
            && !StartsWith(input, "/./") && !StartsWith(input, "/../") && input != "/." && input != "/.."
            && !StartsWith(input, "../") && !StartsWith(input, "./") && input != "." && input != ".."
  {
    var input := "/" + seg + tail;
    assert forall k :: 0 <= k < |seg| ==> input[k + 1] == seg[k] && seg[k] != '/';
    assert input[0] == '/';
    if |seg| == 0 {
      assert tail != "" ==> input[1] == '/';
    } else if |seg| == 1 {
      assert seg[0] != '.' by { assert seg == [seg[0]]; }
      assert input[1] != '.';
    } else if |seg| == 2 {
      assert seg[0] != '.' || seg[1] != '.' by { assert seg == [seg[0], seg[1]]; }
      assert input[2] != '/';
    } else {
      assert input[2] != '/' && input[3] != '/';
    }
  }

  // ---- no dot segments are left

  /** The segment at i. */
  function Segment(p: string, i: nat): string
    requires i <= |p|
  {
    p[i..SegmentEnd(p, i)]
  }

  /** No segment of the path is a dot or a double dot. */
  ghost predicate NoDots(p: string) {
    forall i :: 0 <= i < |p| && p[i] == '/' ==> Segment(p, i + 1) != "." && Segment(p, i + 1) != ".."
  }

  /** A path cut just before a slash has the same segments up to there. */
  lemma SameSegment(a: string, b: string, i: nat)
    requires Tail(b) && i <= |a|
    ensures SegmentEnd(a + b, i) == SegmentEnd(a, i) && Segment(a + b, i) == Segment(a, i)
  {
    var j := SegmentEnd(a, i);
    if j == |a| && b != "" { assert (a + b)[j] == b[0]; }
    SegmentEndIs(a + b, i, j);
    assert (a + b)[i..j] == a[i..j];
  }

  lemma CutKeepsNoDots(a: string, b: string)
    requires Tail(b) && NoDots(a + b)
    ensures NoDots(a)
  {
    forall i | 0 <= i < |a| && a[i] == '/' ensures Segment(a, i + 1) != "." && Segment(a, i + 1) != ".." {
      SameSegment(a, b, i + 1);
      assert (a + b)[i] == '/';
    }
  }

  lemma SegmentKeepsNoDots(a: string, seg: string)
    requires NoDots(a) && NoSlash(seg) && seg != "." && seg != ".."
    ensures NoDots(a + "/" + seg)
  {
    var p := a + "/" + seg;
    assert p == a + ("/" + seg);
    forall i | 0 <= i < |p| && p[i] == '/' ensures Segment(p, i + 1) != "." && Segment(p, i + 1) != ".." {
      if i < |a| {
        assert a[i] == '/';
        SameSegment(a, "/" + seg, i + 1);
      } else {
        assert i == |a|;
        LastSegment(a, seg);
      }
    }
  }

  lemma LastSegment(a: string, seg: string)
    requires NoSlash(seg)
    ensures Segment(a + "/" + seg, |a| + 1) == seg
  {
    var p := a + "/" + seg;
    SegmentEndIs(p, |a| + 1, |p|);
    assert p[|a| + 1..] == seg;
  }

  /** An input of an absolute path is empty or one segment and the rest. */
  lemma Segments(input: string) returns (seg: string, tail: string)
    requires input != "" && input[0] == '/'
    ensures input == "/" + seg + tail && NoSlash(seg) && Tail(tail) && |tail| < |input|
  {
    var j := SegmentEnd(input, 1);
    seg, tail := input[1..j], input[j..];
  }

  /** What is produced from an absolute path has no dot segments. */
  lemma {:induction false} ProducesNoDots(input: string, out: string)
    requires Tail(input) && Tail(out) && NoDots(out)
    ensures NoDots(RemoveDots(input, out)) && Tail(RemoveDots(input, out))
    decreases |input|
  {
    if input == "" {
      NothingToRemove(out);
    } else {
      hide RemoveDots, NoDots;
      var seg, tail := Segments(input);
      OneSegment(seg, tail, out);
      if seg == "." || seg == ".." {
        var kept := if seg == ".." then RemoveLast(out) else out;
        assert out == kept + out[|kept|..];
        CutKeepsNoDots(kept, out[|kept|..]);
        if tail == "" {
          SegmentKeepsNoDots(kept, "");
          assert kept + "/" + "" == kept + "/";
        } else {
          ProducesNoDots(tail, kept);
        }
      } else {
        SegmentKeepsNoDots(out, seg);
        ProducesNoDots(tail, out + "/" + seg);
      }
    }
  }

  lemma LastIsNoDot(out: string, seg: string)
    requires NoDots(out + "/" + seg) && NoSlash(seg)
    ensures seg != "." && seg != ".."
  {
    LastSegment(out, seg);
    assert (out + "/" + seg)[|out|] == '/';
  }

  /** A path without dot segments is left as it is. */
  lemma {:induction false} NoDotsIsFixed(input: string, out: string)
    requires Tail(input) && NoDots(out + input)
    ensures RemoveDots(input, out) == out + input
    decreases |input|
  {
    if input != "" {
      var seg, tail := Segments(input);
      var front := out + "/" + seg;
      assert out + input == front + tail;
      CutKeepsNoDots(front, tail);
      LastIsNoDot(out, seg);
      hide NoDots, RemoveDots;
      OneSegment(seg, tail, out);
      NoDotsIsFixed(tail, front);
    }
  }

  /** Removing dot segments twice is removing them once. */
  lemma Idempotent(path: string)
    requires Tail(path)
    ensures RemoveDots(RemoveDots(path, ""), "") == RemoveDots(path, "")
  {
    ProducesNoDots(path, "");
    var once := RemoveDots(path, "");
    assert "" + once == once;
    NoDotsIsFixed(once, "");
  }

  // ---- the loop

  /** What the loop has written by the time it looks at pathpos: nothing, or the standard's output
      and a slash, or after the last segment the whole result. */
  ghost predicate Progress(path: string, pathpos: nat, written: string, out: string) {
    if pathpos == 0 then written == "" && out == ""
    else if pathpos <= |path| then
      written == out + "/" && Tail(out) && RemoveDots("/" + path[pathpos..], out) == RemoveDots(path, "")
    else written == RemoveDots(path, "")
  }

  /** One segment of an absolute path in the loop. */
  lemma NextSegment(path: string, pathpos: nat, written: string, out: string, next: string, out': string)
    requires path != "" && path[0] == '/' && pathpos < |path| && Progress(path, pathpos, written, out)
    requires var j := SegmentEnd(path, pathpos);
             var seg := path[pathpos..j];
             if seg == ".." then out' == RemoveLast(out) && next == out' + "/"
             else if seg == "." then out' == out && next == written
             else if j < |path| then
               out' == (if pathpos == 0 then "" else out + "/" + seg) && next == written + seg + "/"
             else next == written + seg
    ensures Progress(path, SegmentEnd(path, pathpos) + 1, next, out')
  {
    hide RemoveDots, RemoveLast;
    var j := SegmentEnd(path, pathpos);
    var seg, tail := path[pathpos..j], path[j..];
    if pathpos == 0 {
      assert seg == "" && tail == path && "/" + path[1..] == path;
    } else {
      assert "/" + path[pathpos..] == "/" + seg + tail;
      OneSegment(seg, tail, out);
      if j < |path| {
        assert tail == "/" + path[j + 1..];
        assert written + seg + "/" == (out + "/" + seg) + "/";
      } else {
        EmptyInput(out + "/" + seg);
        assert written + seg == out + "/" + seg;
      }
    }
  }

  lemma EmptyInput(out: string)
    ensures RemoveDots("", out) == out
  {
  }

  lemma AtTheEnd(path: string, written: string, out: string)
    requires Progress(path, |path|, written, out)
    ensures written == RemoveDots(path, "")
  {
    if path != "" {
      assert "/" + path[|path|..] == "/";
      JustSlash(out);
    }
  }

  /** Removes the dot segments of the absolute path that takes up the first pathlen characters. */
  method RemoveDotSegments(path_: array<char>, pathlen: nat) returns (newpos: nat)
    requires pathlen < path_.Length && (pathlen > 0 ==> path_[0] == '/')
    modifies path_
    ensures newpos <= pathlen && path_[newpos] == '\0'
    ensures path_[..newpos] == RemoveDots(old(path_[..pathlen]), "")
  {
    hide Progress, RemoveDots, RemoveLast;
    ghost var path := path_[..pathlen];
    var pathpos := 0;
    newpos := 0;
    ghost var out := "";
    StartOfPath(path);
    while pathpos < pathlen
      invariant newpos <= pathpos <= pathlen + 1 && newpos <= pathlen
      invariant pathpos <= pathlen ==> path_[pathpos..pathlen] == path[pathpos..]
      invariant Progress(path, pathpos, path_[..newpos], out)
    {
      newpos, pathpos, out := TakeSegment(path_, newpos, pathpos, pathlen, path, out);
    }
    if pathpos == pathlen {
      AtTheEnd(path, path_[..newpos], out);
    } else {
      PastTheEnd(path, pathpos, path_[..newpos], out);
    }
    path_[newpos] := '\0';
  }

  /** One turn of the loop. */
  method TakeSegment(path_: array<char>, start: nat, from: nat, pathlen: nat, ghost path: string, ghost before: string)
    returns (newpos: nat, pathpos: nat, ghost out: string)
    requires start <= from < pathlen == |path| && pathlen < path_.Length && path[0] == '/'
    requires path_[from..pathlen] == path[from..] && Progress(path, from, path_[..start], before)
    modifies path_
    ensures from < pathpos && newpos <= pathpos <= pathlen + 1 && newpos <= pathlen
    ensures pathpos <= pathlen ==> path_[pathpos..pathlen] == path[pathpos..]
    ensures Progress(path, pathpos, path_[..newpos], out)
  {
    hide Progress, RemoveDots, RemoveLast;
    newpos, pathpos, out := start, from, before;
    ghost var written := path_[..start];
    var slashpos := FindSlash(path_, pathpos, pathlen, path);
    ghost var seg := path[from..from + slashpos];
    if pathpos + slashpos < pathlen { Suffix(path_[..], path, pathpos, slashpos + 1); }
    SameChars(path_[..], path, pathpos, slashpos);
    if slashpos == 2 && path_[pathpos] == '.' && path_[pathpos + 1] == '.' {
      assert seg == "..";
      SlashBefore(path, pathpos, written, out);
      assert newpos == 0 || path_[newpos - 1] == '/';
      newpos := BackUp(path_, newpos, out);
      out := RemoveLast(out);
    } else if slashpos == 1 && path_[pathpos] == '.' {
      assert seg == ".";
    } else {
      assert newpos <= pathpos;
      out := if pathpos == 0 then "" else out + "/" + seg;
      newpos := MoveSegment(path_, newpos, pathpos, slashpos, pathlen);
      assert pathpos + slashpos < pathlen ==> path_[..newpos] == written + seg + "/";
      assert pathpos + slashpos == pathlen ==> path_[..newpos] == written + seg;
    }
    NextSegment(path, from, written, before, path_[..newpos], out);
    pathpos := pathpos + slashpos + 1;
  }

  lemma SameChars(cur: string, path: string, pathpos: nat, n: nat)
    requires pathpos + n <= |path| <= |cur| && cur[pathpos..|path|] == path[pathpos..]
    ensures cur[pathpos..pathpos + n] == path[pathpos..pathpos + n]
    ensures n > 0 ==> path[pathpos..pathpos + n][0] == cur[pathpos]
    ensures n > 1 ==> path[pathpos..pathpos + n][1] == cur[pathpos + 1]
  {
    assert cur[pathpos..pathpos + n] == cur[pathpos..|path|][..n] && path[pathpos..pathpos + n] == path[pathpos..][..n];
  }

  lemma Suffix(cur: string, path: string, pathpos: nat, k: nat)
    requires pathpos + k <= |path| <= |cur| && cur[pathpos..|path|] == path[pathpos..]
    ensures cur[pathpos + k..|path|] == path[pathpos + k..]
  {
    assert cur[pathpos + k..|path|] == cur[pathpos..|path|][k..];
  }

  lemma StartOfPath(path: string)
    ensures Progress(path, 0, "", "")
  {
  }

  lemma PastTheEnd(path: string, pathpos: nat, written: string, out: string)
    requires Progress(path, pathpos, written, out) && pathpos > |path|
    ensures written == RemoveDots(path, "")
  {
  }

  lemma SlashBefore(path: string, pathpos: nat, written: string, out: string)
    requires Progress(path, pathpos, written, out) && 0 < pathpos <= |path|
    ensures written == out + "/" && Tail(out)
  {
  }

  method FindSlash(path_: array<char>, pathpos: nat, pathlen: nat, ghost path: string) returns (slashpos: nat)
    requires pathpos <= pathlen < path_.Length && |path| == pathlen && path_[pathpos..pathlen] == path[pathpos..]
    ensures pathpos + slashpos == SegmentEnd(path, pathpos)
  {
    slashpos := 0;
    while pathpos + slashpos < pathlen
      invariant pathpos + slashpos <= pathlen && SegmentEnd(path, pathpos + slashpos) == SegmentEnd(path, pathpos)
    {
      assert path_[pathpos + slashpos] == path[pathpos..][slashpos];
      if path_[pathpos + slashpos] == '/' { break; }
      slashpos := slashpos + 1;
    }
  }

  /** Moves a segment down, with the slash after it if there is one. */
  method MoveSegment(path_: array<char>, start: nat, pathpos: nat, slashpos: nat, pathlen: nat) returns (newpos: nat)
    requires start <= pathpos && pathpos + slashpos <= pathlen < path_.Length
    modifies path_
    ensures newpos <= pathpos + slashpos + 1 && newpos <= pathlen
    ensures path_[..newpos] == old(path_[..start]) + old(path_[pathpos..pathpos + slashpos])
                               + if pathpos + slashpos < pathlen then "/" else ""
    ensures pathpos + slashpos < pathlen ==>
              path_[pathpos + slashpos + 1..pathlen] == old(path_[pathpos + slashpos + 1..pathlen])
  {
    newpos := start;
    ghost var all := path_[..];
    forall i | 0 <= i < slashpos { path_[newpos + i] := path_[pathpos + i]; }
    assert path_[..start] == all[..start] && path_[start..start + slashpos] == all[pathpos..pathpos + slashpos];
    newpos := newpos + slashpos;
    assert path_[..newpos] == path_[..start] + path_[start..newpos];
    if pathpos + slashpos < pathlen {
      ghost var moved := path_[..newpos];
      path_[newpos] := '/';
      newpos := newpos + 1;
      assert path_[..newpos] == moved + "/";
    }
  }

  /** Where the output ends once its last segment is dropped. */
  method BackUp(path_: array<char>, start: nat, ghost out: string) returns (newpos: nat)
    requires start <= path_.Length && path_[..start] == out + "/" && Tail(out)
    ensures newpos <= start && path_[..newpos] == RemoveLast(out) + "/"
  {
    newpos := start;
    var lastslashpos := newpos;
    if lastslashpos > 1 {
      lastslashpos := lastslashpos - 1;
      while lastslashpos > 0
        invariant |RemoveLast(out)| < lastslashpos <= |out|
      {
        if path_[lastslashpos - 1] == '/' { break; }
        lastslashpos := lastslashpos - 1;
      }
      newpos := lastslashpos;
    }
  }
}
