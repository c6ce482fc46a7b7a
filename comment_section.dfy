/**
 * The comment section's display helpers: the initials and the colour of a
 * commenter's avatar, and the count in the section's header.
 *
 * Characters are treated as ASCII: upper-casing changes only 'a' to 'z', and a
 * character's code is its Dafny character value.
 */
module CommentSection {
  import opened Wrappers
  import opened Storage

  /** The number of spaces in `s`. */
  function Spaces(s: string): nat {
    if s == "" then 0 else (if s[0] == ' ' then 1 else 0) + Spaces(s[1..])
  }

  /**
   * `s.split(" ")`: the pieces between single spaces. There is always at least one
   * piece, and two spaces in a row, or a space at either end, give an empty piece.
   */
  function Split(s: string): (r: seq<string>)
    ensures |r| == Spaces(s) + 1
    ensures forall i :: 0 <= i < |r| ==> ' ' !in r[i]
  {
    if s == "" then [""]
    else
      var rest := Split(s[1..]);
      if s[0] == ' ' then [""] + rest
      else [[s[0]] + rest[0]] + rest[1..]
  }

  /** `pieces.join(" ")`. */
  function Join(pieces: seq<string>): string
    requires |pieces| >= 1
  {
    if |pieces| == 1 then pieces[0] else pieces[0] + " " + Join(pieces[1..])
  }

  /** Joining the pieces of a split with the same separator gives back the string. */
  lemma {:induction false} SplitJoin(s: string)
    ensures Join(Split(s)) == s
  {
    if s != "" {
      var rest := Split(s[1..]);
      SplitJoin(s[1..]);
      if s[0] == ' ' {
        assert ([""] + rest)[1..] == rest;
      } else {
        var pieces := [[s[0]] + rest[0]] + rest[1..];
        if |rest| == 1 {
          assert pieces == [[s[0]] + rest[0]];
        } else {
          assert pieces[1..] == rest[1..];
          assert Join(rest) == rest[0] + " " + Join(rest[1..]);
        }
        assert s == [s[0]] + s[1..];
      }
    }
  }

  /**
   * `pieces.map(n => n[0]).join("")`: the first character of each piece; an empty
   * piece has no first character and contributes nothing to the join.
   */
  function FirstChars(pieces: seq<string>): (r: string)
    ensures |r| <= |pieces|
    ensures forall c :: c in r ==> exists i :: 0 <= i < |pieces| && pieces[i] != "" && pieces[i][0] == c
  {
    if pieces == [] then ""
    else
      var rest := FirstChars(pieces[1..]);
      assert forall c :: c in rest ==> exists i :: 1 <= i < |pieces| && pieces[i] != "" && pieces[i][0] == c by {
        forall c | c in rest
          ensures exists i :: 1 <= i < |pieces| && pieces[i] != "" && pieces[i][0] == c
        {
          var j :| 0 <= j < |pieces[1..]| && pieces[1..][j] != "" && pieces[1..][j][0] == c;
          assert pieces[j + 1] == pieces[1..][j];
        }
      }
      (if pieces[0] == "" then "" else [pieces[0][0]]) + rest
  }

  /**
   * An independent description of the same characters: those of `s` that are not
   * a space and start `s` (when `atStart`) or follow a space.
   */
  function WordStarts(s: string, atStart: bool): string {
    if s == "" then ""
    else (if s[0] != ' ' && atStart then [s[0]] else "") + WordStarts(s[1..], s[0] == ' ')
  }

  /**
   * The first characters of the pieces of a split are exactly the characters that
   * start a word; those of all pieces but the first are the word starts after
   * position 0.
   */
  lemma {:induction false} FirstCharsAreWordStarts(s: string)
    ensures FirstChars(Split(s)) == WordStarts(s, true)
    ensures FirstChars(Split(s)[1..]) == WordStarts(s, false)
  {
    if s != "" {
      var rest := Split(s[1..]);
      FirstCharsAreWordStarts(s[1..]);
      if s[0] == ' ' {
        assert Split(s) == [""] + rest;
        assert Split(s)[1..] == rest;
      } else {
        assert Split(s) == [[s[0]] + rest[0]] + rest[1..];
        assert Split(s)[1..] == rest[1..];
      }
    }
  }

  /** The ASCII upper case of a character. */
  function UpperChar(c: char): (r: char)
    ensures 'a' <= c <= 'z' ==> 'A' <= r <= 'Z' && r as int == c as int - 32
    ensures !('a' <= c <= 'z') ==> r == c
  {
    if 'a' <= c <= 'z' then (c as int - 32) as char else c
  }

  /** `toUpperCase()`, on ASCII letters. */
  function ToUpper(s: string): (r: string)
    ensures |r| == |s|
    ensures forall i :: 0 <= i < |s| ==> r[i] == UpperChar(s[i])
  {
    seq(|s|, i requires 0 <= i < |s| => UpperChar(s[i]))
  }

  /** `getInitials`: the upper-cased first character of each space-separated piece of the name. */
  function GetInitials(name: string): (r: string)
    ensures |r| <= Spaces(name) + 1
    ensures ' ' !in r
    ensures forall i :: 0 <= i < |r| ==> !('a' <= r[i] <= 'z')
  {
    var pieces := Split(name);
    var firsts := FirstChars(pieces);
    forall k | 0 <= k < |firsts|
      ensures firsts[k] != ' '
    {
      assert firsts[k] in firsts;
      var i :| 0 <= i < |pieces| && pieces[i] != "" && pieces[i][0] == firsts[k];
      assert pieces[i][0] in pieces[i];
    }
    ToUpper(firsts)
  }

  /** The initials are the upper-cased starts of the name's words. */
  lemma InitialsAreWordStarts(name: string)
    ensures GetInitials(name) == ToUpper(WordStarts(name, true))
  {
    FirstCharsAreWordStarts(name);
  }

  /** Splitting a space-free word followed by more text extends the first piece of the rest. */
  lemma {:induction false} SplitAfterWord(w: string, t: string)
    requires ' ' !in w
    ensures Split(w + t) == [w + Split(t)[0]] + Split(t)[1..]
  {
    if w == "" {
      assert w + t == t;
      assert w + Split(t)[0] == Split(t)[0];
      assert Split(t) == [Split(t)[0]] + Split(t)[1..];
    } else {
      var rest := Split(w[1..] + t);
      assert w[1..] + t == (w + t)[1..];
      assert (w + t)[0] == w[0] && w[0] in w;
      SplitAfterWord(w[1..], t);
      assert [w[0]] + (w[1..] + Split(t)[0]) == w + Split(t)[0];
    }
  }

  /** A first and a last name without spaces give two initials. */
  lemma TwoWordInitials(first: string, last: string)
    requires ' ' !in first && ' ' !in last
    requires first != "" && last != ""
    ensures GetInitials(first + " " + last) == ToUpper([first[0], last[0]])
  {
    SplitAfterWord(last, "");
    assert last + "" == last;
    assert Split("") == [""];
    assert Split(last) == [last];
    var tail := " " + last;
    assert tail[0] == ' ' && tail[1..] == last;
    assert Split(tail) == [""] + [last];
    SplitAfterWord(first, tail);
    assert first + " " + last == first + tail;
    assert first + "" == first;
    var pieces := Split(first + " " + last);
    assert pieces == [first, last];
    assert FirstChars(pieces) == [first[0]] + FirstChars([last]);
  }

  /**
   * The seeded commenter "John Doe" has initials "JD". The name is a parameter
   * fixed by the precondition, here and in the next two lemmas, because a
   * literal argument makes the verifier unfold `GetInitials` on the constant
   * eagerly, which costs several times as much as the proof through
   * `TwoWordInitials`.
   */
  lemma JohnDoeInitials(name: string)
    requires name == "John Doe"
    ensures GetInitials(name) == "JD"
  {
    TwoWordInitials("John", "Doe");
    assert "John" + " " + "Doe" == name;
  }

  /** The seeded commenter "Sarah Miller" has initials "SM". */
  lemma SarahMillerInitials(name: string)
    requires name == "Sarah Miller"
    ensures GetInitials(name) == "SM"
  {
    TwoWordInitials("Sarah", "Miller");
    assert "Sarah" + " " + "Miller" == name;
  }

  /** The seeded commenter "Mike Kim" has initials "MK". */
  lemma MikeKimInitials(name: string)
    requires name == "Mike Kim"
    ensures GetInitials(name) == "MK"
  {
    TwoWordInitials("Mike", "Kim");
    assert "Mike" + " " + "Kim" == name;
  }

  /** The six avatar colours, in order; no colour appears twice. */
  function AvatarColors(): (r: seq<string>)
    ensures |r| == 6
    ensures forall i, j :: 0 <= i < j < |r| ==> r[i] != r[j]
  {
    ["bg-blue-500", "bg-purple-500", "bg-green-500", "bg-orange-500", "bg-pink-500", "bg-indigo-500"]
  }

  /**
   * The colour index, `name.charCodeAt(0) % colors.length`. For an empty name the
   * character code is NaN, and so is the index.
   */
  function AvatarIndex(name: string): (r: Option<nat>)
    ensures r.None? <==> name == ""
    ensures r.Some? ==> r.value < |AvatarColors()|
  {
    if name == "" then None else Some((name[0] as int) % |AvatarColors()|)
  }

  /** `getAvatarColor`: one of the six colours, or nothing (undefined) for an empty name. */
  function GetAvatarColor(name: string): (r: Option<string>)
    ensures r.None? <==> name == ""
    ensures r.Some? ==> r.value in AvatarColors()
  {
    match AvatarIndex(name)
    case None => None
    case Some(i) => Some(AvatarColors()[i])
  }

  /** The colour depends on the first character only, and cycles every six character codes. */
  lemma AvatarColorByFirstChar(a: string, b: string)
    requires a != "" && b != ""
    requires (a[0] as int) % 6 == (b[0] as int) % 6
    ensures GetAvatarColor(a) == GetAvatarColor(b)
  {
  }

  /** The avatar colours of the seeded commenters. */
  lemma SeededAvatarColors()
    ensures GetAvatarColor("John Doe") == Some("bg-green-500")
    ensures GetAvatarColor("Sarah Miller") == Some("bg-indigo-500")
    ensures GetAvatarColor("Mike Kim") == Some("bg-indigo-500")
  {
  }

  /** The header's count, `comments?.length || 0`: zero while the comments are not loaded. */
  function CommentCount(comments: Option<seq<Comment>>): (r: nat)
    ensures comments.None? ==> r == 0
    ensures comments.Some? ==> r == |comments.value|
  {
    match comments
    case None => 0
    case Some(cs) => |cs|
  }

  /** Once loaded from a store, the header counts every stored comment on the post. */
  lemma HeaderCountsStoredComments(s: MemStorage, postId: int)
    requires s.Valid()
    ensures CommentCount(Some(s.GetCommentsByPostId(postId))) == |s.CommentIdsOf(postId)|
  {
  }
}
