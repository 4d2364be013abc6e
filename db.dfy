/** The ORM layer (src/fastbg/db.py): column values, rows, the table name a model class
    gets from its Python class name, and `as_dict`. */
module Db {

  /** A column value as the ORM returns it; `VNone` is SQL NULL, Python's `None`. */
  datatype Value = VNone | VInt(i: int) | VStr(s: string) | VBool(b: bool)

  /** Python truthiness of a value, as `if not x` tests it. */
  predicate Truthy(v: Value) {
    match v
    case VNone => false
    case VInt(i) => i != 0
    case VStr(s) => s != ""
    case VBool(b) => b
  }

  /** One row of a model's table. The primary key and the soft-delete flag are kept apart
      from the other columns: no create or update schema ever carries them. Timestamps are
      not modelled. */
  datatype Row = Row(id: int, fields: map<string, Value>, isSoftDeleted: bool)

  /** The authenticated caller that `get_current_user` resolves for a request. */
  datatype CurrentUser = CurrentUser(id: int, name: string)

  /** `getattr(row, name, None)`: the primary key, the soft-delete flag, a stored column,
      or `None` for an attribute the row does not have. */
  function Attr(row: Row, name: string): Value {
    if name == "id" then VInt(row.id)
    else if name == "is_soft_deleted" then VBool(row.isSoftDeleted)
    else if name in row.fields then row.fields[name]
    else VNone
  }

  /** `as_dict`: one entry per column of the table, holding that attribute's value. */
  function AsDict(row: Row, columns: seq<string>): (d: map<string, Value>)
    ensures d.Keys == set c | c in columns
    ensures forall c :: c in d ==> d[c] == Attr(row, c)
  {
    map c | c in columns :: Attr(row, c)
  }

  // ---------------------------------------------------------------------------------
  // `__tablename__`: PascalCase class name to snake_case table name.
  // ---------------------------------------------------------------------------------

  /** The character class `[A-Z]` that the scan uses. */
  predicate IsUpper(c: char) {
    'A' <= c <= 'Z'
  }

  /** `str.lower` on one character (ASCII letters only). */
  function LowerChar(c: char): char {
    if IsUpper(c) then (c as int + 32) as char else c
  }

  function Lower(s: string): (r: string)
    ensures |r| == |s|
    ensures forall i :: 0 <= i < |s| ==> r[i] == LowerChar(s[i])
  {
    seq(|s|, i requires 0 <= i < |s| => LowerChar(s[i]))
  }

  /** Number of ASCII capitals in `s`. */
  function CountUpper(s: string): nat {
    if s == [] then 0 else CountUpper(s[..|s| - 1]) + (if IsUpper(s[|s| - 1]) then 1 else 0)
  }

  /** One scanned character, preceded by the `_` inserted before it when it is a capital. */
  function Mark(c: char): string {
    if IsUpper(c) then ['_', c] else [c]
  }

  /** The scanned part `cls_name[1:]` after all insertions. */
  function Marked(s: string): string {
    if s == [] then [] else Marked(s[..|s| - 1]) + Mark(s[|s| - 1])
  }

  /** The name before lowering: the first character as it is, the rest marked. */
  function Snake(name: string): string {
    if name == [] then [] else [name[0]] + Marked(name[1..])
  }

  /** Capitals at positions 1 .. i of `name`: the underscores inserted up to position i. */
  function InsertedBefore(name: string, i: nat): nat
    requires i < |name|
  {
    CountUpper(name[1..i + 1])
  }

  /** Where character i of `name` lands in the table name. */
  function Pos(name: string, i: nat): nat
    requires i < |name|
  {
    i + InsertedBefore(name, i)
  }

  /** `s` with every `_` removed. */
  function Strip(s: string): string {
    if s == [] then [] else Strip(s[..|s| - 1]) + (if s[|s| - 1] == '_' then [] else [s[|s| - 1]])
  }

  /** `Base.__tablename__`: copies the class name into a list, scans `cls_name[1:]` for
      capitals and inserts `_` at `match.end() + index`, where `index` counts the
      insertions made so far, then joins and lowers the list. */
  method TableName(clsName: string) returns (r: string)
    ensures r == Lower(Snake(clsName))
    ensures forall i :: 0 <= i < |r| ==> !IsUpper(r[i])
    ensures |r| == |clsName| + (if clsName == [] then 0 else CountUpper(clsName[1..]))
  {
    var rest := if clsName == [] then "" else clsName[1..];
    var head := if clsName == [] then "" else clsName[..1];
    assert clsName == head + rest;
    var tableName := clsName;
    var index := 0;
    for j := 0 to |rest|
      invariant index == CountUpper(rest[..j])
      invariant |Marked(rest[..j])| == j + index
      invariant tableName == head + Marked(rest[..j]) + rest[j..]
    {
      ScanStep(rest, j);
      assert |head| == 1;
      if IsUpper(rest[j]) {
        // the match of rest[j] ends at j + 1 of `cls_name[1:]`
        var at := j + 1 + index;
        InsertUnderscore(head, Marked(rest[..j]), rest, j, at);
        tableName := tableName[..at] + ['_'] + tableName[at..];
        index := index + 1;
      } else {
        KeepCharacter(head, Marked(rest[..j]), rest, j);
      }
    }
    assert rest[..|rest|] == rest;
    assert tableName == Snake(clsName) by {
      if clsName != [] {
        assert head == [clsName[0]];
      }
    }
    r := Lower(tableName);
    LowerHasNoCapitals(tableName);
    MarkedLength(rest);
  }

  /** One more scanned character: its mark is appended and the capitals are recounted. */
  lemma ScanStep(s: string, j: nat)
    requires j < |s|
    ensures Marked(s[..j + 1]) == Marked(s[..j]) + Mark(s[j])
    ensures CountUpper(s[..j + 1]) == CountUpper(s[..j]) + (if IsUpper(s[j]) then 1 else 0)
    ensures |Marked(s[..j + 1])| == j + 1 + CountUpper(s[..j + 1])
    ensures s[j..] == [s[j]] + s[j + 1..]
  {
    assert s[..j + 1][..j] == s[..j];
    MarkedLength(s[..j + 1]);
  }

  /** `list.insert(at, "_")` just before the capital `rest[j]`, which follows the prefix
      `head + m`: the list then reads as if `rest[j]` had been marked. */
  lemma InsertUnderscore(head: string, m: string, rest: string, j: nat, at: nat)
    requires j < |rest| && IsUpper(rest[j]) && at == |head| + |m|
    ensures var l := head + m + rest[j..];
      l[..at] + ['_'] + l[at..] == head + (m + Mark(rest[j])) + rest[j + 1..]
  {
    var l := head + m + rest[j..];
    assert l[..at] == head + m;
    assert l[at..] == rest[j..] == [rest[j]] + rest[j + 1..];
  }

  /** A character that is not a capital stays where it is. */
  lemma KeepCharacter(head: string, m: string, rest: string, j: nat)
    requires j < |rest| && !IsUpper(rest[j])
    ensures head + m + rest[j..] == head + (m + Mark(rest[j])) + rest[j + 1..]
  {
    assert rest[j..] == [rest[j]] + rest[j + 1..];
  }

  lemma LowerHasNoCapitals(s: string)
    ensures forall i :: 0 <= i < |Lower(s)| ==> !IsUpper(Lower(s)[i])
  {
  }

  lemma {:induction false} MarkedLength(s: string)
    ensures |Marked(s)| == |s| + CountUpper(s)
  {
    if s != [] {
      MarkedLength(s[..|s| - 1]);
    }
  }

  /** The table name is as long as the class name plus one underscore for every capital
      after the first character. */
  lemma TableNameLength(name: string)
    requires name != []
    ensures |Lower(Snake(name))| == |name| + CountUpper(name[1..])
  {
    MarkedLength(name[1..]);
  }

  /** Where character j of the scanned part lands in the marked part, and the `_` just
      before it when it is a capital. */
  lemma {:induction false} MarkedAt(s: string, j: nat)
    requires j < |s|
    ensures |Marked(s)| == |s| + CountUpper(s)
    ensures j + CountUpper(s[..j + 1]) < |Marked(s)|
    ensures Marked(s)[j + CountUpper(s[..j + 1])] == s[j]
    ensures IsUpper(s[j]) ==> Marked(s)[j + CountUpper(s[..j + 1]) - 1] == '_'
  {
    var init := s[..|s| - 1];
    MarkedLength(s);
    MarkedLength(init);
    if j < |s| - 1 {
      assert s[..j + 1] == init[..j + 1];
      MarkedAt(init, j);
    } else {
      assert s[..j + 1] == s;
    }
  }

  /** Each character of the class name appears, lowered, at `Pos(name, i)` of the table
      name, and a capital after the first character is immediately preceded by exactly
      one inserted `_`: the character before it in the class name sits two positions
      earlier, whereas any other character follows its predecessor directly. The first
      character never gets one. */
  lemma {:induction false} TableNameAt(name: string, i: nat)
    requires i < |name|
    ensures Pos(name, i) < |Lower(Snake(name))|
    ensures Lower(Snake(name))[Pos(name, i)] == LowerChar(name[i])
    ensures i == 0 ==> Pos(name, i) == 0
    ensures i > 0 && IsUpper(name[i]) ==>
      Lower(Snake(name))[Pos(name, i) - 1] == '_' && Pos(name, i) == Pos(name, i - 1) + 2
    ensures i > 0 && !IsUpper(name[i]) ==> Pos(name, i) == Pos(name, i - 1) + 1
  {
    var rest := name[1..];
    MarkedLength(rest);
    assert Snake(name) == [name[0]] + Marked(rest);
    if i == 0 {
      assert name[1..1] == [];
    } else {
      MarkedAt(rest, i - 1);
      PosStep(name, i);
    }
  }

  /** How far character i lands after character i - 1: one place, or two when an `_`
      is inserted before it. */
  lemma PosStep(name: string, i: nat)
    requires 0 < i < |name|
    ensures Pos(name, i) == (i - 1) + CountUpper(name[1..][..i]) + 1
    ensures Pos(name, i) == Pos(name, i - 1) + (if IsUpper(name[i]) then 2 else 1)
  {
    var rest := name[1..];
    ScanStep(rest, i - 1);
    assert name[1..i + 1] == rest[..i];
    assert name[1..i] == rest[..i - 1];
  }

  lemma {:induction false} StripConcat(a: string, b: string)
    ensures Strip(a + b) == Strip(a) + Strip(b)
  {
    if b != [] {
      assert (a + b)[..|a + b| - 1] == a + b[..|b| - 1];
      StripConcat(a, b[..|b| - 1]);
    } else {
      assert a + b == a;
    }
  }

  lemma {:induction false} StripMarked(s: string)
    ensures Strip(Marked(s)) == Strip(s)
  {
    if s != [] {
      var init, c := s[..|s| - 1], s[|s| - 1];
      StripMarked(init);
      StripConcat(Marked(init), Mark(c));
      if IsUpper(c) {
        assert Mark(c) == ['_'] + [c];
        StripConcat(['_'], [c]);
        assert Strip(['_']) == [];
        assert Strip([c]) == [c] by { assert [c][..0] == []; }
      } else {
        assert Strip(Mark(c)) == Strip([c]);
        assert Strip([c]) == if c == '_' then [] else [c] by { assert [c][..0] == []; }
      }
    }
  }

  lemma {:induction false} LowerStrip(s: string)
    ensures Lower(Strip(s)) == Strip(Lower(s))
  {
    if s != [] {
      var init, c := s[..|s| - 1], s[|s| - 1];
      assert Lower(s)[..|s| - 1] == Lower(init);
      LowerStrip(init);
      var tail := if c == '_' then [] else [c];
      assert Lower(Strip(init) + tail) == Lower(Strip(init)) + Lower(tail);
    }
  }

  /** Taking the inserted underscores back out of the table name gives the lowered class
      name, characters in the same order. Stated with every `_` removed from both sides,
      so that an underscore already in the class name is accounted for. */
  lemma UnderscoresRemoved(name: string)
    ensures Strip(Lower(Snake(name))) == Lower(Strip(name))
  {
    if name != [] {
      StripMarked(name[1..]);
      StripConcat([name[0]], Marked(name[1..]));
      assert name == [name[0]] + name[1..];
      StripConcat([name[0]], name[1..]);
      LowerStrip(Snake(name));
    }
    LowerStrip(name);
  }

  /** A class name with no `_` in it: dropping the underscores gives exactly its
      lowercase. */
  lemma UnderscoresRemovedPlain(name: string)
    requires forall i :: 0 <= i < |name| ==> name[i] != '_'
    ensures Strip(Lower(Snake(name))) == Lower(name)
  {
    UnderscoresRemoved(name);
    StripNoUnderscore(name);
  }

  lemma {:induction false} StripNoUnderscore(s: string)
    requires forall i :: 0 <= i < |s| ==> s[i] != '_'
    ensures Strip(s) == s
  {
    if s != [] {
      StripNoUnderscore(s[..|s| - 1]);
    }
  }

  lemma {:induction false} MarkedNoCapitals(s: string)
    requires CountUpper(s) == 0
    ensures Marked(s) == s
  {
    if s != [] {
      MarkedNoCapitals(s[..|s| - 1]);
    }
  }

  /** A class name without capitals after its first character becomes its lowercase. */
  lemma NoInteriorCapitals(name: string)
    requires name != [] && CountUpper(name[1..]) == 0
    ensures Lower(Snake(name)) == Lower(name)
  {
    MarkedNoCapitals(name[1..]);
    assert [name[0]] + name[1..] == name;
  }

  /** The `User` model lives in table `user`. */
  lemma UserTable()
    ensures Lower(Snake("User")) == "user"
  {
    assert "ser"[..2] == "se" && "se"[..1] == "s" && "s"[..0] == [];
    assert "User"[1..] == "ser" && CountUpper("ser") == 0;
    NoInteriorCapitals("User");
    var l := Lower("User");
    assert l[0] == 'u' && l[1] == 's' && l[2] == 'e' && l[3] == 'r';
  }

  /** Marking distributes over concatenation. */
  lemma {:induction false} MarkedConcat(a: string, b: string)
    ensures Marked(a + b) == Marked(a) + Marked(b)
  {
    if b != [] {
      assert (a + b)[..|a + b| - 1] == a + b[..|b| - 1];
      MarkedConcat(a, b[..|b| - 1]);
    } else {
      assert a + b == a;
    }
  }

  /** Two words: exactly one `_` goes in front of the second capital. */
  lemma TwoWords(a: char, b: string, c: char, d: string)
    requires IsUpper(c) && CountUpper(b) == 0 && CountUpper(d) == 0
    ensures Snake([a] + (b + ([c] + d))) == [a] + (b + (['_', c] + d))
  {
    SnakeCons(a, b + ([c] + d));
    SecondWordMarked(b, c, d);
  }

  lemma SnakeCons(a: char, rest: string)
    ensures Snake([a] + rest) == [a] + Marked(rest)
  {
    assert ([a] + rest)[1..] == rest;
  }

  lemma SecondWordMarked(b: string, c: char, d: string)
    requires IsUpper(c) && CountUpper(b) == 0 && CountUpper(d) == 0
    ensures Marked(b + ([c] + d)) == b + (['_', c] + d)
  {
    MarkedNoCapitals(b);
    MarkedNoCapitals(d);
    MarkedSingle(c);
    MarkedConcat([c], d);
    MarkedConcat(b, [c] + d);
  }

  lemma MarkedSingle(c: char)
    ensures Marked([c]) == Mark(c)
  {
    assert [c][..0] == [];
  }

  /** The `PostTags` association lives in table `post_tags`. */
  lemma PostTagsTable()
    ensures Lower(Snake("PostTags")) == "post_tags"
  {
    assert "ost"[..2] == "os" && "os"[..1] == "o" && "o"[..0] == [];
    assert "ags"[..2] == "ag" && "ag"[..1] == "a" && "a"[..0] == [];
    TwoWords('P', "ost", 'T', "ags");
    assert "PostTags" == ['P'] + ("ost" + (['T'] + "ags"));
    LowerPostTags();
  }

  lemma LowerPostTags()
    ensures Lower(['P'] + ("ost" + (['_', 'T'] + "ags"))) == "post_tags"
  {
    var l := Lower(['P'] + ("ost" + (['_', 'T'] + "ags")));
    assert l[0] == 'p' && l[1] == 'o' && l[2] == 's' && l[3] == 't' && l[4] == '_';
    assert l[5] == 't' && l[6] == 'a' && l[7] == 'g' && l[8] == 's';
  }
}
