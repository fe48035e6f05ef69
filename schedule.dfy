/** The school's calendar API as the companion reads it
    (ssis/companion/libraries/schedule/schedule.js): each event's comma-separated participant
    list is classified into classes, rooms, teachers and pentries, and the events are sorted
    into all-day events and lessons.

    The four classification regular expressions and the trimming expression are written out as
    string predicates. They are matched against the lowercased participant; lowercasing covers
    ASCII letters only. Time handling is a parameter: `timing(e)` gives the computed `isAllDay`
    and `hasPassed` of a raw event. */
module Schedule {
  import opened Optional

  // ---------------------------------------------------------------------------------
  // Characters and strings

  predicate IsDigit(c: char)
  {
    '0' <= c <= '9'
  }

  predicate IsLowerAscii(c: char)
  {
    'a' <= c <= 'z'
  }

  /** The characters `String.prototype.trim` removes: white space and line terminators, by
      code point. */
  predicate IsJsWhitespace(c: char)
  {
    var n := c as int;
    || 0x09 <= n <= 0x0D || n == 0x20 || n == 0xA0 || n == 0x1680 || 0x2000 <= n <= 0x200A
    || n == 0x2028 || n == 0x2029 || n == 0x202F || n == 0x205F || n == 0x3000 || n == 0xFEFF
  }

  /** How many white-space characters `s` starts with; `ws` tells white space. */
  function LeadingSpace(s: string, ws: char -> bool): (n: nat)
    ensures n <= |s|
    ensures forall i | 0 <= i < n :: ws(s[i])
    ensures n < |s| ==> !ws(s[n])
  {
    if s != [] && ws(s[0]) then
      var n := 1 + LeadingSpace(s[1..], ws);
      assert forall i | 1 <= i < n :: s[i] == s[1..][i - 1];
      n
    else 0
  }

  /** How many white-space characters `s` ends with. */
  function TrailingSpace(s: string, ws: char -> bool): (n: nat)
    ensures n <= |s|
    ensures forall i | |s| - n <= i < |s| :: ws(s[i])
    ensures n < |s| ==> !ws(s[|s| - n - 1])
  {
    if s != [] && ws(s[|s| - 1]) then 1 + TrailingSpace(s[..|s| - 1], ws) else 0
  }

  /** `s` with its leading white space removed. */
  function TrimStart(s: string, ws: char -> bool): string
  {
    s[LeadingSpace(s, ws)..]
  }

  /** `s` with its trailing white space removed. */
  function TrimEnd(s: string, ws: char -> bool): string
  {
    s[..|s| - TrailingSpace(s, ws)]
  }

  /** `String.prototype.trim` when `ws` is `IsJsWhitespace`. */
  function Trim(s: string, ws: char -> bool): string
  {
    TrimEnd(TrimStart(s, ws), ws)
  }

  /** How much leading white space `Trim` cuts off. */
  function TrimOffset(s: string, ws: char -> bool): nat
  {
    LeadingSpace(s, ws)
  }

  /** Trimming leaves a slice of the input that neither starts nor ends with white space, and
      only white space is cut off on either side. */
  lemma TrimIsSlice(s: string, ws: char -> bool)
    ensures var r := Trim(s, ws);
            var a := TrimOffset(s, ws);
            && a + |r| <= |s|
            && r == s[a..a + |r|]
            && (forall i | 0 <= i < a :: ws(s[i]))
            && (forall i | a + |r| <= i < |s| :: ws(s[i]))
            && (r != [] ==> !ws(r[0]) && !ws(r[|r| - 1]))
  {
    var a := LeadingSpace(s, ws);
    var t := s[a..];
    var b := TrailingSpace(t, ws);
    var r := t[..|t| - b];
    assert r == s[a..a + |r|];
    forall i | a + |r| <= i < |s|
      ensures ws(s[i])
    {
      assert s[i] == t[i - a];
    }
    if r != [] {
      assert r[0] == t[0];
      assert r[|r| - 1] == t[|t| - b - 1];
    }
  }

  lemma TrimIdempotent(s: string, ws: char -> bool)
    ensures Trim(Trim(s, ws), ws) == Trim(s, ws)
  {
    var r := Trim(s, ws);
    TrimIsSlice(s, ws);
    if r != [] {
      assert TrimStart(r, ws) == r;
      assert TrimEnd(r, ws) == r;
    } else {
      assert Trim(r, ws) == [];
    }
  }

  function LowerChar(c: char): char
  {
    if 'A' <= c <= 'Z' then c - 'A' + 'a' else c
  }

  /** `String.prototype.toLowerCase` on the ASCII letters. */
  function ToLower(s: string): (r: string)
    ensures |r| == |s|
    ensures forall i | 0 <= i < |s| :: r[i] == LowerChar(s[i])
  {
    if s == [] then [] else [LowerChar(s[0])] + ToLower(s[1..])
  }

  /** `t` occurs somewhere in `s`. */
  predicate Contains(s: string, t: string)
    decreases |s|
  {
    t <= s || (s != [] && Contains(s[1..], t))
  }

  predicate EndsWith(s: string, t: string)
  {
    |t| <= |s| && s[|s| - |t|..] == t
  }

  // ---------------------------------------------------------------------------------
  // The trimming expression: the first "(" + two or more digits + ")"

  /** The end of the run of digits that starts at `i`. */
  function DigitRunEnd(s: string, i: nat): (j: nat)
    requires i <= |s|
    ensures i <= j <= |s|
    ensures forall k | i <= k < j :: IsDigit(s[k])
    ensures j < |s| ==> !IsDigit(s[j])
    decreases |s| - i
  {
    if i < |s| && IsDigit(s[i]) then DigitRunEnd(s, i + 1) else i
  }

  /** A match of the trimming expression starts at `i` (the digits are matched greedily, and
      giving some back cannot make room for the closing parenthesis). */
  predicate GroupAt(s: string, i: nat)
  {
    && i + 1 < |s|
    && s[i] == '('
    && DigitRunEnd(s, i + 1) - (i + 1) >= 2
    && DigitRunEnd(s, i + 1) < |s|
    && s[DigitRunEnd(s, i + 1)] == ')'
  }

  /** The leftmost position from `i` on where the trimming expression matches. */
  function FindGroup(s: string, i: nat): (r: Option<nat>)
    requires i <= |s|
    ensures r.Some? ==> i <= r.value < |s| && GroupAt(s, r.value)
    ensures r.Some? ==> forall k | i <= k < r.value :: !GroupAt(s, k)
    ensures r.None? ==> forall k | i <= k < |s| :: !GroupAt(s, k)
    decreases |s| - i
  {
    if i == |s| then None
    else if GroupAt(s, i) then Some(i)
    else FindGroup(s, i + 1)
  }

  /** `participant.replace(trimmingRegex, "")`: only the first match is removed. */
  function RemoveNumberGroup(s: string): string
  {
    match FindGroup(s, 0)
    case None => s
    case Some(i) => s[..i] + s[DigitRunEnd(s, i + 1) + 1..]
  }

  // ---------------------------------------------------------------------------------
  // The classification expressions

  /** The lower-case room names, in the order the room expression is built from. */
  const RoomsLowercase: seq<string> := [
    "arkaden", "green corner", "zelda", "tetris", "space invaders", "donkey kong", "pac-man",
    "snake", "monopol", "domino", "schack", "go", "plockepinn", "backgammon", "mastermind",
    "yatzy"]

  /** The parts of the expressions after the optional "ssis-" prefixes. */
  datatype Core = ClassCore | TeacherCore | PentryCore | FirstRoomStart

  predicate CoreMatch(core: Core, s: string)
  {
    match core
    case ClassCore =>
      (|s| == 5 && s[..2] == "te" && IsDigit(s[2]) && IsDigit(s[3]) && IsLowerAscii(s[4]))
      || s == "hela skolan" || s == "individuella val"
    case TeacherCore => |s| == 3 && IsLowerAscii(s[0]) && IsLowerAscii(s[1]) && IsLowerAscii(s[2])
    case PentryCore =>
      && |s| >= 7 && s[..6] == "pentry"
      && (s[|s| - 1] == '1' || s[|s| - 1] == '2')
      && forall k | 6 <= k < |s| - 1 :: s[k] == ' '
    case FirstRoomStart => RoomsLowercase[0] <= s
  }

  /** `^(ssis- *)*` followed by the core: any number of "ssis-" prefixes, each followed by any
      number of spaces. */
  predicate Prefixed(core: Core, s: string)
    decreases |s|, 1
  {
    CoreMatch(core, s) || ("ssis-" <= s && AfterPrefix(core, s[5..]))
  }

  predicate AfterPrefix(core: Core, s: string)
    decreases |s|, 2
  {
    Prefixed(core, s) || (s != [] && s[0] == ' ' && AfterPrefix(core, s[1..]))
  }

  /** `s` ends with `stem` followed by any number of `c`. */
  predicate EndsWithStarred(s: string, stem: string, c: char)
    decreases |s|
  {
    EndsWith(s, stem) || (s != [] && s[|s| - 1] == c && EndsWithStarred(s[..|s| - 1], stem, c))
  }

  /** The room expression joins the names with "|" without a group, so its first alternative is
      anchored at the start (after the prefixes), its last at the end with a starred final
      letter, and every name in between may occur anywhere. */
  predicate IsRoom(s: string)
  {
    var last := RoomsLowercase[|RoomsLowercase| - 1];
    || Prefixed(FirstRoomStart, s)
    || ContainsAny(s, RoomsLowercase[1..|RoomsLowercase| - 1])
    || EndsWithStarred(s, last[..|last| - 1], last[|last| - 1])
  }

  /** One of `names` occurs somewhere in `s`. */
  predicate ContainsAny(s: string, names: seq<string>)
  {
    names != [] && (Contains(s, names[0]) || ContainsAny(s, names[1..]))
  }

  lemma {:induction false} ContainsAnyAt(s: string, names: seq<string>, k: nat)
    requires k < |names| && Contains(s, names[k])
    ensures ContainsAny(s, names)
  {
    if k > 0 {
      ContainsAnyAt(s, names[1..], k - 1);
    }
  }

  datatype Kind = Class | Room | Teacher | Pentry

  /** A classified participant with its text as the calendar wrote it, trimmed. */
  datatype Participant = Participant(kind: Kind, text: string)

  /** The expressions in the order they are tried: class, room, teacher, pentry. */
  function Classify(lower: string): Option<Kind>
  {
    if Prefixed(ClassCore, lower) then Some(Class)
    else if IsRoom(lower) then Some(Room)
    else if Prefixed(TeacherCore, lower) then Some(Teacher)
    else if Prefixed(PentryCore, lower) then Some(Pentry)
    else None
  }

  /** The first expression that matches wins, and a text no expression matches is not
      classified. */
  lemma ClassifyFirstMatch(lower: string)
    ensures Classify(lower) == Some(Class) <==> Prefixed(ClassCore, lower)
    ensures Classify(lower) == Some(Room) <==> !Prefixed(ClassCore, lower) && IsRoom(lower)
    ensures Classify(lower) == Some(Teacher) <==>
              !Prefixed(ClassCore, lower) && !IsRoom(lower) && Prefixed(TeacherCore, lower)
    ensures Classify(lower) == Some(Pentry) <==>
              !Prefixed(ClassCore, lower) && !IsRoom(lower) && !Prefixed(TeacherCore, lower) && Prefixed(PentryCore, lower)
    ensures Classify(lower) == None <==>
              !Prefixed(ClassCore, lower) && !IsRoom(lower) && !Prefixed(TeacherCore, lower) && !Prefixed(PentryCore, lower)
  {
  }

  /** The participant text after removing the first number group and trimming. */
  function Cleaned(participant: string): string
  {
    Trim(RemoveNumberGroup(participant), IsJsWhitespace)
  }

  /** `parseParticipant`: None stands for `[null, null]`. */
  function ParseParticipant(participant: string): Option<Participant>
  {
    var text := Cleaned(participant);
    if |text| == 0 then None
    else match Classify(ToLower(text))
      case None => None
      case Some(kind) => Some(Participant(kind, text))
  }

  /** The kind comes from the lowercased text while the returned text keeps its case; the text
      is the cleaned participant, which neither starts nor ends with white space; and an empty
      text is never classified. */
  lemma ParseParticipantMeans(participant: string)
    ensures var r := ParseParticipant(participant);
            var text := Cleaned(participant);
            && (text == "" ==> r == None)
            && (text != "" ==> (r.Some? <==> Classify(ToLower(text)).Some?))
            && (r.Some? ==> r.value.text == text && r.value.kind == Classify(ToLower(text)).value)
            && (r.Some? ==> !IsJsWhitespace(text[0]) && !IsJsWhitespace(text[|text| - 1]))
  {
    TrimIsSlice(RemoveNumberGroup(participant), IsJsWhitespace);
  }

  // Examples of the classification.

  lemma NoParenthesisNoGroup(s: string)
    requires forall k | 0 <= k < |s| :: s[k] != '('
    ensures RemoveNumberGroup(s) == s
  {
  }

  lemma TrimUnchanged(s: string)
    requires s != [] && !IsJsWhitespace(s[0]) && !IsJsWhitespace(s[|s| - 1])
    ensures Trim(s, IsJsWhitespace) == s
  {
  }

  lemma ContainsShorter(s: string, t: string)
    requires Contains(s, t)
    ensures |t| <= |s|
  {
  }

  lemma EndsWithStarredShorter(s: string, stem: string, c: char)
    requires EndsWithStarred(s, stem, c)
    ensures |stem| <= |s|
  {
  }

  /** Among the names that may occur anywhere, only "go" is as short as three characters. */
  lemma MiddleRoomNamesLong()
    ensures var names := RoomsLowercase[1..|RoomsLowercase| - 1];
            && |names| == 14 && names[10] == "go"
            && forall k | 0 <= k < |names| && k != 10 :: |names[k]| > 3
  {
  }

  /** No name longer than `s` occurs in it. */
  lemma {:induction false} NoneFits(s: string, names: seq<string>)
    requires forall k | 0 <= k < |names| :: |names[k]| > |s|
    ensures !ContainsAny(s, names)
  {
    if names != [] {
      if Contains(s, names[0]) {
        ContainsShorter(s, names[0]);
      }
      NoneFits(s, names[1..]);
    }
  }

  /** When every name but the `g`th is longer than `s`, only that one can occur in `s`. */
  lemma {:induction false} OnlyOneFits(s: string, names: seq<string>, g: nat)
    requires g < |names|
    requires forall k | 0 <= k < |names| && k != g :: |names[k]| > |s|
    ensures ContainsAny(s, names) <==> Contains(s, names[g])
  {
    if g == 0 {
      NoneFits(s, names[1..]);
    } else {
      if Contains(s, names[0]) {
        ContainsShorter(s, names[0]);
      }
      OnlyOneFits(s, names[1..], g - 1);
    }
  }

  /** A text of at most three characters is a room only by containing "go" or starting like
      the first room name, and "arkaden" is longer than three characters. */
  lemma ShortRoom(s: string)
    requires |s| <= 3
    ensures IsRoom(s) <==> Contains(s, "go") || Prefixed(FirstRoomStart, s)
  {
    MiddleRoomNamesLong();
    ShortMiddle(s, RoomsLowercase[1..|RoomsLowercase| - 1]);
    ShortLast(s);
  }

  lemma ShortMiddle(s: string, names: seq<string>)
    requires |s| <= 3
    requires |names| == 14 && names[10] == "go"
    requires forall k | 0 <= k < |names| && k != 10 :: |names[k]| > 3
    ensures ContainsAny(s, names) <==> Contains(s, "go")
  {
    OnlyOneFits(s, names, 10);
  }

  lemma ShortLast(s: string)
    requires |s| <= 3
    ensures var last := RoomsLowercase[|RoomsLowercase| - 1];
            !EndsWithStarred(s, last[..|last| - 1], last[|last| - 1])
  {
    var last := RoomsLowercase[|RoomsLowercase| - 1];
    assert |last| == 5;
    if EndsWithStarred(s, last[..|last| - 1], last[|last| - 1]) {
      EndsWithStarredShorter(s, last[..|last| - 1], last[|last| - 1]);
    }
  }

  /** A three-letter signature is a teacher, kept in its own case. */
  lemma TeacherExample(p: string)
    requires p == "REK"
    ensures ParseParticipant(p) == Some(Participant(Teacher, p))
  {
    NoParenthesisNoGroup(p);
    TrimUnchanged(p);
    var lower := ToLower(p);
    assert lower == "rek";
    assert !Prefixed(ClassCore, lower);
    ShortRoom(lower);
    assert !Contains(lower[2..], "go") by {
      if Contains(lower[2..], "go") {
        ContainsShorter(lower[2..], "go");
      }
    }
    assert lower[1..][1..] == lower[2..];
    assert !Contains(lower[1..], "go");
    assert !Contains(lower, "go");
    assert !Prefixed(FirstRoomStart, lower);
    assert Prefixed(TeacherCore, lower);
  }

  /** The ungrouped room expression makes any participant containing "go" a room, so a teacher
      signed "GOL" is taken for a room. */
  lemma GolIsARoom(p: string)
    requires p == "GOL"
    ensures ParseParticipant(p) == Some(Participant(Room, p))
  {
    NoParenthesisNoGroup(p);
    TrimUnchanged(p);
    var lower := ToLower(p);
    assert lower == "gol";
    assert !Prefixed(ClassCore, lower);
    ShortRoom(lower);
    assert Contains(lower, "go");
  }

  /** A number group in parentheses is removed before the name is classified. */
  lemma RoomWithNumberExample(p: string)
    requires p == "Zelda (123)"
    ensures ParseParticipant(p) == Some(Participant(Room, p[..5]))
  {
    ZeldaCleaned(p);
    var lower := ToLower(p[..5]);
    assert lower == "zelda";
    ZeldaIsRoom(lower);
    ZeldaNotAClass(lower);
  }

  lemma ZeldaCleaned(p: string)
    requires p == "Zelda (123)"
    ensures Cleaned(p) == p[..5]
  {
    ZeldaGroupRemoved(p);
    ZeldaTrimmed(p[..6]);
    assert p[..6][..5] == p[..5];
  }

  lemma ZeldaNotAClass(lower: string)
    requires lower == "zelda"
    ensures !Prefixed(ClassCore, lower)
  {
  }

  lemma ZeldaGroupRemoved(p: string)
    requires p == "Zelda (123)"
    ensures RemoveNumberGroup(p) == p[..6]
  {
    assert DigitRunEnd(p, 10) == 10;
    assert DigitRunEnd(p, 7) == 10;
    assert GroupAt(p, 6);
    assert forall k | 0 <= k < 6 :: !GroupAt(p, k);
    assert FindGroup(p, 0) == Some(6);
  }

  lemma ZeldaTrimmed(s: string)
    requires s == "Zelda "
    ensures Trim(s, IsJsWhitespace) == s[..5]
  {
    assert !IsJsWhitespace(s[0]);
    assert TrimStart(s, IsJsWhitespace) == s;
    assert IsJsWhitespace(s[5]);
    assert !IsJsWhitespace(s[4]);
    assert TrailingSpace(s, IsJsWhitespace) == 1 + TrailingSpace(s[..5], IsJsWhitespace);
    assert TrailingSpace(s[..5], IsJsWhitespace) == 0;
  }

  lemma ZeldaIsRoom(lower: string)
    requires lower == "zelda"
    ensures IsRoom(lower)
  {
    var names := RoomsLowercase[1..|RoomsLowercase| - 1];
    assert names[1] == lower;
    assert Contains(lower, names[1]);
    ContainsAnyAt(lower, names, 1);
  }

  /** A piece after ", " keeps its leading space until it is trimmed. */
  lemma SpacedPieceCleaned(p: string)
    requires |p| >= 2 && p[0] == ' ' && !IsJsWhitespace(p[1]) && !IsJsWhitespace(p[|p| - 1])
    requires forall k | 0 <= k < |p| :: p[k] != '('
    ensures Cleaned(p) == p[1..]
  {
    NoParenthesisNoGroup(p);
    assert LeadingSpace(p, IsJsWhitespace) == 1;
    TrimUnchanged(p[1..]);
  }

  /** " Zelda", as the second piece of a list, is the room "Zelda". */
  lemma SpacedZeldaIsRoom(p: string)
    requires p == " Zelda"
    ensures ParseParticipant(p) == Some(Participant(Room, p[1..]))
  {
    SpacedPieceCleaned(p);
    ZeldaClassified(p[1..]);
  }

  lemma ZeldaClassified(text: string)
    requires text == "Zelda"
    ensures Classify(ToLower(text)) == Some(Room)
  {
    var lower := ToLower(text);
    assert lower[0] == 'z' && lower[1] == 'e' && lower[2] == 'l' && lower[3] == 'd' && lower[4] == 'a';
    assert lower == "zelda";
    ZeldaNotAClass(lower);
    ZeldaIsRoom(lower);
  }

  /** " TE20A" is the class "TE20A": the class expression is tried first. */
  lemma SpacedClassExample(p: string)
    requires p == " TE20A"
    ensures ParseParticipant(p) == Some(Participant(Class, p[1..]))
  {
    SpacedPieceCleaned(p);
    ClassClassified(p[1..]);
  }

  lemma ClassClassified(text: string)
    requires text == "TE20A"
    ensures Classify(ToLower(text)) == Some(Class)
  {
    var lower := ToLower(text);
    assert lower[0] == 't' && lower[1] == 'e' && lower[2] == '2' && lower[3] == '0' && lower[4] == 'a';
    assert lower[..2] == "te";
    assert CoreMatch(ClassCore, lower);
  }

  // ---------------------------------------------------------------------------------
  // Splitting the participant list

  /** `s.split(sep)`: the pieces between separators; always at least one piece. */
  function SplitOn(s: string, sep: char): (r: seq<string>)
    ensures |r| >= 1
    ensures forall k | 0 <= k < |r| :: sep !in r[k]
  {
    if s == [] then [""]
    else
      var rest := SplitOn(s[1..], sep);
      if s[0] == sep then [""] + rest
      else [[s[0]] + rest[0]] + rest[1..]
  }

  /** `pieces.join(sep)`. */
  function Join(pieces: seq<string>, sep: char): string
    requires |pieces| >= 1
  {
    if |pieces| == 1 then pieces[0] else pieces[0] + [sep] + Join(pieces[1..], sep)
  }

  /** Splitting loses nothing: joining the pieces with the separator gives the input back. */
  lemma {:induction false} SplitJoin(s: string, sep: char)
    ensures Join(SplitOn(s, sep), sep) == s
  {
    if s != [] {
      var rest := SplitOn(s[1..], sep);
      SplitJoin(s[1..], sep);
      if s[0] == sep {
        assert SplitOn(s, sep)[1..] == rest;
      } else {
        var r := SplitOn(s, sep);
        if |rest| == 1 {
          assert r == [[s[0]] + rest[0]];
        } else {
          assert r[1..] == rest[1..];
          assert Join(rest, sep) == rest[0] + [sep] + Join(rest[1..], sep);
        }
      }
    }
  }

  // ---------------------------------------------------------------------------------
  // Events

  /** An event as the calendar API returns it; `isAllDay` is the raw field, usually absent. */
  datatype ApiEvent = ApiEvent(subject: string, startTime: string, endTime: string, participants: string, isAllDay: Option<bool>)

  datatype ParsedEvent = ParsedEvent(
    subject: string,
    room: Option<string>,
    teachers: seq<string>,
    classes: seq<string>,
    start: string,
    end: string,
    allParticipants: seq<string>,
    isAllDay: bool,
    hasPassed: bool)

  datatype Events = Events(allDayEvents: seq<ParsedEvent>, scheduleEvents: seq<ParsedEvent>)

  /** The participants `parse` classifies among a list of pieces, in order. */
  function Classified(pieces: seq<string>, parse: string -> Option<Participant>): seq<Participant>
  {
    if pieces == [] then []
    else
      var last := parse(pieces[|pieces| - 1]);
      Classified(pieces[..|pieces| - 1], parse) + (if last.Some? then [last.value] else [])
  }

  /** The texts of the participants of one kind, in order. */
  function TextsOf(ps: seq<Participant>, kind: Kind): seq<string>
  {
    if ps == [] then []
    else TextsOf(ps[..|ps| - 1], kind) + (if ps[|ps| - 1].kind == kind then [ps[|ps| - 1].text] else [])
  }

  function Texts(ps: seq<Participant>): seq<string>
  {
    if ps == [] then [] else Texts(ps[..|ps| - 1]) + [ps[|ps| - 1].text]
  }

  /** The text of the last participant of one kind. */
  function LastOf(ps: seq<Participant>, kind: Kind): Option<string>
  {
    if ps == [] then None
    else if ps[|ps| - 1].kind == kind then Some(ps[|ps| - 1].text)
    else LastOf(ps[..|ps| - 1], kind)
  }

  /** Every classified participant lands in exactly one of the four kinds, and the room kept is
      the last room, present exactly when there is a room at all. */
  lemma {:induction false} PartitionOfParticipants(ps: seq<Participant>)
    ensures |Texts(ps)| == |ps|
    ensures |Texts(ps)| == |TextsOf(ps, Class)| + |TextsOf(ps, Room)| + |TextsOf(ps, Teacher)| + |TextsOf(ps, Pentry)|
    ensures LastOf(ps, Room).Some? <==> |TextsOf(ps, Room)| > 0
    ensures LastOf(ps, Room).Some? ==> LastOf(ps, Room).value == TextsOf(ps, Room)[|TextsOf(ps, Room)| - 1]
  {
    if ps != [] {
      PartitionOfParticipants(ps[..|ps| - 1]);
    }
  }

  /** The event built from a raw event, with its computed all-day and passed flags. */
  function ParseEvent(e: ApiEvent, isAllDay: bool, hasPassed: bool): ParsedEvent
  {
    var ps := Classified(SplitOn(e.participants, ','), ParseParticipant);
    ParsedEvent(e.subject, LastOf(ps, Room), TextsOf(ps, Teacher), TextsOf(ps, Class),
                e.startTime, e.endTime, Texts(ps), isAllDay, hasPassed)
  }

  /** Classifying one more piece appends its participant, if any. */
  lemma ClassifiedStep(pieces: seq<string>, parse: string -> Option<Participant>, i: nat)
    requires i < |pieces|
    ensures parse(pieces[i]).None? ==> Classified(pieces[..i + 1], parse) == Classified(pieces[..i], parse)
    ensures parse(pieces[i]).Some? ==>
              Classified(pieces[..i + 1], parse) == Classified(pieces[..i], parse) + [parse(pieces[i]).value]
  {
    assert pieces[..i + 1][..i] == pieces[..i];
    assert Classified(pieces[..i], parse) + [] == Classified(pieces[..i], parse);
  }

  /** Appending one participant extends its kind's texts, all texts and the last of its kind. */
  lemma TextsStep(ps: seq<Participant>, p: Participant)
    ensures TextsOf(ps + [p], Teacher) == TextsOf(ps, Teacher) + (if p.kind == Teacher then [p.text] else [])
    ensures TextsOf(ps + [p], Class) == TextsOf(ps, Class) + (if p.kind == Class then [p.text] else [])
    ensures Texts(ps + [p]) == Texts(ps) + [p.text]
    ensures LastOf(ps + [p], Room) == if p.kind == Room then Some(p.text) else LastOf(ps, Room)
  {
    assert (ps + [p])[..|ps|] == ps;
  }

  /** The loop over one event's participants: the last room wins, teachers and classes are
      collected in arrival order, and every classified participant, pentries included, goes to
      `allParticipants`. The classifier is the parameter `parse`; the event parser passes
      `ParseParticipant`. */
  method ParseEventParticipants(participants: string, parse: string -> Option<Participant>) returns (room: Option<string>, teachers: seq<string>, classes: seq<string>, allParticipants: seq<string>)
    ensures var ps := Classified(SplitOn(participants, ','), parse);
            && room == LastOf(ps, Room)
            && teachers == TextsOf(ps, Teacher)
            && classes == TextsOf(ps, Class)
            && allParticipants == Texts(ps)
  {
    var pieces := SplitOn(participants, ',');
    room, teachers, classes, allParticipants := None, [], [], [];
    var i := 0;
    ghost var ps: seq<Participant> := [];
    while i < |pieces|
      invariant 0 <= i <= |pieces|
      invariant ps == Classified(pieces[..i], parse)
      invariant room == LastOf(ps, Room)
      invariant teachers == TextsOf(ps, Teacher)
      invariant classes == TextsOf(ps, Class)
      invariant allParticipants == Texts(ps)
    {
      ClassifiedStep(pieces, parse, i);
      var parsed := parse(pieces[i]);
      if parsed.Some? {
        var p := parsed.value;
        TextsStep(ps, p);
        if p.kind == Room {
          room := Some(p.text);
        } else if p.kind == Teacher {
          teachers := teachers + [p.text];
        } else if p.kind == Class {
          classes := classes + [p.text];
        }
        allParticipants := allParticipants + [p.text];
        ps := ps + [p];
      }
      i := i + 1;
    }
    assert pieces[..|pieces|] == pieces;
  }

  /** Splitting at a separator that `a` does not contain gives `a` as the first piece. */
  lemma {:induction false} SplitOnFirst(a: string, sep: char, b: string)
    requires sep !in a
    ensures SplitOn(a + [sep] + b, sep) == [a] + SplitOn(b, sep)
  {
    if a == [] {
      assert a + [sep] + b == [sep] + b;
      assert ([sep] + b)[1..] == b;
    } else {
      SplitOnFirst(a[1..], sep, b);
      assert (a + [sep] + b)[1..] == a[1..] + [sep] + b;
      assert [a[0]] + a[1..] == a;
    }
  }

  /** A text without the separator is one piece. */
  lemma {:induction false} SplitOnNone(a: string, sep: char)
    requires sep !in a
    ensures SplitOn(a, sep) == [a]
  {
    if a != [] {
      SplitOnNone(a[1..], sep);
      assert [a[0]] + a[1..] == a;
    }
  }

  /** Three pieces joined by commas split back into those pieces. */
  lemma ThreePieces(a: string, b: string, c: string)
    requires ',' !in a && ',' !in b && ',' !in c
    ensures SplitOn(a + [','] + b + [','] + c, ',') == [a, b, c]
  {
    assert a + [','] + b + [','] + c == a + [','] + (b + [','] + c);
    SplitOnNone(c, ',');
    SplitOnFirst(b, ',', c);
    SplitOnFirst(a, ',', b + [','] + c);
  }

  /** Three pieces that each classify give their three participants, in order. */
  lemma ClassifiedThree(pieces: seq<string>, parse: string -> Option<Participant>, x: Participant, y: Participant, z: Participant)
    requires |pieces| == 3
    requires parse(pieces[0]) == Some(x) && parse(pieces[1]) == Some(y) && parse(pieces[2]) == Some(z)
    ensures Classified(pieces, parse) == [x, y, z]
  {
    assert pieces[..0] == [];
    ClassifiedStep(pieces, parse, 0);
    ClassifiedStep(pieces, parse, 1);
    ClassifiedStep(pieces, parse, 2);
    assert pieces[..3] == pieces;
  }

  /** The participant list "REK, Zelda, TE20A" splits into a teacher, a room and a class;
      the two later pieces lose the space after the comma. */
  lemma ParticipantListExample(a: string, b: string, c: string)
    requires a == "REK" && b == " Zelda" && c == " TE20A"
    ensures Classified(SplitOn(a + [','] + b + [','] + c, ','), ParseParticipant) ==
              [Participant(Teacher, "REK"), Participant(Room, "Zelda"), Participant(Class, "TE20A")]
  {
    ThreePieces(a, b, c);
    TeacherExample(a);
    SpacedZeldaIsRoom(b);
    SpacedClassExample(c);
    ClassifiedThree([a, b, c], ParseParticipant, Participant(Teacher, a), Participant(Room, b[1..]), Participant(Class, c[1..]));
  }

  /** A teacher, a room and a class, in that order, sort into one of each. */
  lemma SortedThree(t: Participant, z: Participant, k: Participant)
    requires t.kind == Teacher && z.kind == Room && k.kind == Class
    ensures LastOf([t, z, k], Room) == Some(z.text)
    ensures TextsOf([t, z, k], Teacher) == [t.text]
    ensures TextsOf([t, z, k], Class) == [k.text]
    ensures Texts([t, z, k]) == [t.text, z.text, k.text]
  {
    var one, two, three := [t], [t, z], [t, z, k];
    assert three[..2] == two && two[..1] == one && one[..0] == [];
    assert Texts(one) == [] + [t.text];
    assert Texts(two) == Texts(one) + [z.text];
    assert Texts(three) == Texts(two) + [k.text];
    assert TextsOf(one, Teacher) == [] + [t.text];
    assert TextsOf(two, Teacher) == TextsOf(one, Teacher);
    assert TextsOf(three, Teacher) == TextsOf(two, Teacher);
    assert TextsOf(two, Class) == TextsOf(one, Class) == [];
    assert TextsOf(three, Class) == [] + [k.text];
    assert LastOf(three, Room) == LastOf(two, Room) == Some(z.text);
  }

  /** An event with the participants "REK, Zelda, TE20A" has the room "Zelda", the teacher
      "REK", the class "TE20A", and all three among its participants in the order listed. */
  lemma ParsedEventExample(e: ApiEvent, isAllDay: bool, hasPassed: bool)
    requires e.participants == "REK, Zelda, TE20A"
    ensures var r := ParseEvent(e, isAllDay, hasPassed);
            && r.room == Some("Zelda")
            && r.teachers == ["REK"]
            && r.classes == ["TE20A"]
            && r.allParticipants == ["REK", "Zelda", "TE20A"]
  {
    var a, b, c := "REK", " Zelda", " TE20A";
    assert e.participants == a + [','] + b + [','] + c;
    ParticipantListExample(a, b, c);
    SortedThree(Participant(Teacher, "REK"), Participant(Room, "Zelda"), Participant(Class, "TE20A"));
  }

  /** The event built from a raw event with the flags `timing` computes for it. */
  function WithTiming(timing: ApiEvent -> (bool, bool)): ApiEvent -> ParsedEvent
  {
    e => ParseEvent(e, timing(e).0, timing(e).1)
  }

  /** The events of one kind of raw `isAllDay` flag, each parsed by `parse`, in order. */
  function EventsWhere(json: seq<ApiEvent>, parse: ApiEvent -> ParsedEvent, allDay: bool): seq<ParsedEvent>
  {
    if json == [] then []
    else
      var e := json[|json| - 1];
      EventsWhere(json[..|json| - 1], parse, allDay) + (if (e.isAllDay == Some(true)) == allDay then [parse(e)] else [])
  }

  /** Taking one more event adds it to the list its raw flag selects and leaves the other. */
  lemma EventsWhereStep(json: seq<ApiEvent>, parse: ApiEvent -> ParsedEvent, i: nat)
    requires i < |json|
    ensures json[i].isAllDay == Some(true) ==>
              && EventsWhere(json[..i + 1], parse, true) == EventsWhere(json[..i], parse, true) + [parse(json[i])]
              && EventsWhere(json[..i + 1], parse, false) == EventsWhere(json[..i], parse, false)
    ensures json[i].isAllDay != Some(true) ==>
              && EventsWhere(json[..i + 1], parse, false) == EventsWhere(json[..i], parse, false) + [parse(json[i])]
              && EventsWhere(json[..i + 1], parse, true) == EventsWhere(json[..i], parse, true)
  {
    var init := json[..i + 1];
    assert init[..i] == json[..i];
    assert EventsWhere(json[..i], parse, true) + [] == EventsWhere(json[..i], parse, true);
    assert EventsWhere(json[..i], parse, false) + [] == EventsWhere(json[..i], parse, false);
  }

  /** The loop over the API's events: each event is parsed and sorted by its raw `isAllDay`
      field; a null response gives no events at all. */
  method GetScheduleEvents(json: Option<seq<ApiEvent>>, timing: ApiEvent -> (bool, bool)) returns (events: Events)
    ensures json.None? ==> events == Events([], [])
    ensures json.Some? ==> events.scheduleEvents == EventsWhere(json.value, WithTiming(timing), false)
    ensures json.Some? ==> events.allDayEvents == EventsWhere(json.value, WithTiming(timing), true)
  {
    events := Events([], []);
    if json.Some? {
      var es := json.value;
      var i := 0;
      while i < |es|
        invariant 0 <= i <= |es|
        invariant events.scheduleEvents == EventsWhere(es[..i], WithTiming(timing), false)
        invariant events.allDayEvents == EventsWhere(es[..i], WithTiming(timing), true)
      {
        var e := es[i];
        var room, teachers, classes, allParticipants := ParseEventParticipants(e.participants, ParseParticipant);
        var parsed := ParsedEvent(e.subject, room, teachers, classes, e.startTime, e.endTime,
                                  allParticipants, timing(e).0, timing(e).1);
        assert parsed == WithTiming(timing)(e);
        EventsWhereStep(es, WithTiming(timing), i);
        if e.isAllDay != Some(true) {
          events := events.(scheduleEvents := events.scheduleEvents + [parsed]);
        } else {
          events := events.(allDayEvents := events.allDayEvents + [parsed]);
        }
        i := i + 1;
      }
      assert es[..|es|] == es;
    }
  }

  /** Every event lands in exactly one of the two lists. */
  lemma {:induction false} EventsPartition(json: seq<ApiEvent>, parse: ApiEvent -> ParsedEvent)
    ensures |EventsWhere(json, parse, false)| + |EventsWhere(json, parse, true)| == |json|
  {
    if json != [] {
      EventsPartition(json[..|json| - 1], parse);
    }
  }

  /** The sorting reads the raw field, not the computed flag: when the API leaves `isAllDay`
      out, every event is a lesson, in order, whatever its computed all-day flag says. */
  lemma {:induction false} RawFlagDecides(json: seq<ApiEvent>, parse: ApiEvent -> ParsedEvent)
    requires forall k | 0 <= k < |json| :: json[k].isAllDay == None
    ensures EventsWhere(json, parse, true) == []
    ensures |EventsWhere(json, parse, false)| == |json|
    ensures forall k | 0 <= k < |json| :: EventsWhere(json, parse, false)[k] == parse(json[k])
  {
    if json != [] {
      var init := json[..|json| - 1];
      assert forall k | 0 <= k < |init| :: init[k] == json[k];
      RawFlagDecides(init, parse);
      var before := EventsWhere(init, parse, false);
      var after := EventsWhere(json, parse, false);
      assert after == before + [parse(json[|json| - 1])];
      assert EventsWhere(json, parse, true) == EventsWhere(init, parse, true) + [];
      forall k | 0 <= k < |json|
        ensures after[k] == parse(json[k])
      {
        if k < |init| {
          assert after[k] == before[k];
        }
      }
    }
  }
}
