/** `_parse_sql_statements`: comments are dropped, then the script is cut at semicolons. */
module SqlSplitter {
  import opened Options
  import opened Strings

  function DropLine(s: string): (rest: string)
    ensures |rest| <= |s| && (s != "" && s[0] != '\n' ==> |rest| < |s|)
  {
    if s == "" || s[0] == '\n' then s else DropLine(s[1..])
  }

  /** `re.sub(r"--[^\n]*", "", s)` */
  function DropLineComments(s: string): string
    decreases |s|
  {
    if |s| < 2 then s
    else if s[0] == '-' && s[1] == '-' then DropLineComments(DropLine(s))
    else [s[0]] + DropLineComments(s[1..])
  }

  /** Where the first closing mark of a block comment begins. */
  function FindClose(s: string): (i: Option<nat>)
    ensures i.Some? ==> i.value + 2 <= |s|
  {
    if |s| < 2 then None
    else if s[0] == '*' && s[1] == '/' then Some(0)
    else
      var i := FindClose(s[1..]);
      if i.Some? then Some(i.value + 1) else None
  }

  // The second substitution: each opening mark is removed up to the first closing mark after it, if there is one.
  function DropBlockComments(s: string): string
    decreases |s|
  {
    if |s| < 2 then s
    else
      var close := if s[0] == '/' && s[1] == '*' then FindClose(s[2..]) else None;
      if close.Some? then DropBlockComments(s[2 + close.value + 2..])
      else [s[0]] + DropBlockComments(s[1..])
  }

  function ParseSqlStatements(sql: string): seq<string> {
    StripNonBlank(Split(DropBlockComments(DropLineComments(sql)), ';'))
  }

  // ---- Scripts ----

  predicate NoPair(s: string, a: char, b: char) {
    |s| >= 2 ==> !(s[0] == a && s[1] == b) && NoPair(s[1..], a, b)
  }

  /** A statement that the splitter can keep whole. */
  predicate IsStatement(s: string) {
    IsTrimmed(s) && ';' !in s && NoPair(s, '-', '-') && NoPair(s, '/', '*')
  }

  datatype Comment = Line(text: string) | Block(text: string)

  predicate IsComment(c: Comment) {
    match c
    case Line(text) => '\n' !in text
    case Block(text) => NoPair(text, '-', '-') && NoPair(text, '*', '/')
  }

  /** Comments followed by a statement, or by nothing. */
  datatype Chunk = Chunk(comments: seq<Comment>, statement: string)

  predicate IsChunk(c: Chunk) {
    (forall i | 0 <= i < |c.comments| :: IsComment(c.comments[i])) && (c.statement == "" || IsStatement(c.statement))
  }

  predicate AreChunks(chunks: seq<Chunk>) {
    forall i | 0 <= i < |chunks| :: IsChunk(chunks[i])
  }

  /** What is left of a comment after `passes` of the two substitutions. */
  function CommentText(c: Comment, passes: nat): string {
    match c
    case Line(text) => if passes == 0 then "--" + text + "\n" else "\n"
    case Block(text) => if passes <= 1 then "/*" + text + "*/" else ""
  }

  function CommentsText(comments: seq<Comment>, passes: nat): string {
    if comments == [] then "" else CommentText(comments[0], passes) + CommentsText(comments[1..], passes)
  }

  function ChunkText(c: Chunk, passes: nat): string {
    CommentsText(c.comments, passes) + c.statement
  }

  /** The script, its chunks joined by a semicolon and a newline. */
  function ScriptText(chunks: seq<Chunk>, passes: nat): string {
    if chunks == [] then ""
    else if |chunks| == 1 then ChunkText(chunks[0], passes)
    else ChunkText(chunks[0], passes) + ";\n" + ScriptText(chunks[1..], passes)
  }

  function Statements(chunks: seq<Chunk>): seq<string> {
    if chunks == [] then []
    else if chunks[0].statement == "" then Statements(chunks[1..])
    else [chunks[0].statement] + Statements(chunks[1..])
  }

  // ---- First pass: line comments ----

  lemma {:induction false} NoPairAppend(s: string, t: string, a: char, b: char)
    requires NoPair(s, a, b) && NoPair(t, a, b) && (s != "" && t != "" ==> !(s[|s| - 1] == a && t[0] == b))
    ensures NoPair(s + t, a, b)
  {
    if s == "" {
      assert s + t == t;
    } else {
      assert (s + t)[1..] == s[1..] + t;
      NoPairAppend(s[1..], t, a, b);
      assert |s| >= 2 ==> (s + t)[1] == s[1];
    }
  }

  lemma {:induction false} HeadAndTail(a: string, b: string)
    requires a != ""
    ensures a + b != "" && (a + b)[0] == a[0] && (a + b)[1..] == a[1..] + b && [a[0]] + (a[1..] + b) == a + b
    ensures |a| >= 2 ==> (a + b)[1] == a[1]
  {
  }

  lemma {:induction false} Associative(a: string, b: string, c: string)
    ensures a + b + c == a + (b + c)
  {
  }

  lemma {:induction false} Regroup(a: string, b: string, c: string, d: string)
    ensures a + b + c + d == a + (b + c + d)
  {
  }

  lemma {:induction false} LinePassStep(s: string)
    requires s != "" && (|s| >= 2 ==> !(s[0] == '-' && s[1] == '-'))
    ensures DropLineComments(s) == [s[0]] + DropLineComments(s[1..])
  {
    if |s| == 1 {
      assert s == [s[0]] + "";
    }
  }

  lemma {:induction false} LinePassKeeps(a: string, b: string)
    requires NoPair(a, '-', '-') && (a != "" ==> a[|a| - 1] != '-' || b == "")
    ensures DropLineComments(a + b) == a + DropLineComments(b)
  {
    if a == "" {
      assert a + b == b;
    } else {
      HeadAndTail(a, b);
      LinePassStep(a + b);
      LinePassKeeps(a[1..], b);
      HeadAndTail(a, DropLineComments(b));
    }
  }

  lemma {:induction false} DropLineStops(text: string, b: string)
    requires '\n' !in text
    ensures DropLine(text + "\n" + b) == "\n" + b
  {
    var s := text + "\n" + b;
    if text == "" {
      assert s == "\n" + b;
    } else {
      assert s[0] == text[0] && s[1..] == text[1..] + "\n" + b;
      DropLineStops(text[1..], b);
    }
  }

  lemma {:induction false} LinePassDrops(text: string, b: string)
    requires '\n' !in text
    ensures DropLineComments("--" + text + "\n" + b) == "\n" + DropLineComments(b)
  {
    var s := "--" + text + "\n" + b;
    assert s == ("--" + text) + "\n" + b && s[0] == '-' && s[1] == '-';
    DropLineStops("--" + text, b);
    assert NoPair("\n", '-', '-');
    LinePassKeeps("\n", b);
  }

  /** A comment after other text on its line is dropped up to the end of the line, or of the script. */
  lemma {:induction false} TrailingCommentIsDropped(a: string, text: string, b: string)
    requires NoPair(a, '-', '-') && (a != "" ==> a[|a| - 1] != '-') && '\n' !in text
    ensures DropLineComments(a + ("--" + text + "\n" + b)) == a + ("\n" + DropLineComments(b))
    ensures DropLineComments(a + ("--" + text)) == a
  {
    LinePassKeeps(a, "--" + text + "\n" + b);
    LinePassDrops(text, b);
    LinePassKeeps(a, "--" + text);
    DropToEnd("--" + text);
    assert a + "" == a;
  }

  lemma {:induction false} DropToEnd(s: string)
    requires '\n' !in s
    ensures DropLine(s) == ""
  {
    if s != "" {
      DropToEnd(s[1..]);
    }
  }

  lemma {:induction false} LinePassComments(comments: seq<Comment>, b: string)
    requires forall i | 0 <= i < |comments| :: IsComment(comments[i])
    ensures DropLineComments(CommentsText(comments, 0) + b) == CommentsText(comments, 1) + DropLineComments(b)
  {
    if comments == [] {
      assert CommentsText(comments, 0) + b == b;
    } else {
      LinePassComments(comments[1..], b);
      LinePassComment(comments[0], CommentsText(comments[1..], 0) + b);
      Associative(CommentText(comments[0], 0), CommentsText(comments[1..], 0), b);
      Associative(CommentText(comments[0], 1), CommentsText(comments[1..], 1), DropLineComments(b));
    }
  }

  lemma {:induction false} LinePassComment(c: Comment, rest: string)
    requires IsComment(c)
    ensures DropLineComments(CommentText(c, 0) + rest) == CommentText(c, 1) + DropLineComments(rest)
  {
    match c
    case Line(text) => LinePassDrops(text, rest);
    case Block(text) =>
      assert NoPair("/*", '-', '-') && NoPair("*/", '-', '-');
      NoPairAppend("/*", text, '-', '-');
      NoPairAppend("/*" + text, "*/", '-', '-');
      LinePassKeeps("/*" + text + "*/", rest);
  }

  lemma {:induction false} EndsStatement(s: string)
    requires s == "" || IsStatement(s)
    ensures NoPair(s + ";\n", '-', '-') && NoPair(s + ";\n", '/', '*')
  {
    assert NoPair(";\n", '-', '-') && NoPair(";\n", '/', '*');
    NoPairAppend(s, ";\n", '-', '-');
    NoPairAppend(s, ";\n", '/', '*');
  }

  lemma {:induction false} LinePassLast(c: Chunk)
    requires IsChunk(c)
    ensures DropLineComments(ChunkText(c, 0)) == ChunkText(c, 1)
  {
    LinePassComments(c.comments, c.statement);
    LinePassKeeps(c.statement, "");
    assert c.statement + "" == c.statement;
  }

  lemma {:induction false} LinePassChunk(c: Chunk, rest: string)
    requires IsChunk(c)
    ensures DropLineComments(ChunkText(c, 0) + ";\n" + rest) == ChunkText(c, 1) + ";\n" + DropLineComments(rest)
  {
    var ended := c.statement + ";\n";
    EndsStatement(c.statement);
    LinePassComments(c.comments, ended + rest);
    LinePassKeeps(ended, rest);
    Regroup(CommentsText(c.comments, 0), c.statement, ";\n", rest);
    Regroup(CommentsText(c.comments, 1), c.statement, ";\n", DropLineComments(rest));
  }

  lemma {:induction false} LinePass(chunks: seq<Chunk>)
    requires AreChunks(chunks)
    ensures DropLineComments(ScriptText(chunks, 0)) == ScriptText(chunks, 1)
  {
    if |chunks| == 1 {
      LinePassLast(chunks[0]);
    } else if |chunks| > 1 {
      LinePass(chunks[1..]);
      LinePassChunk(chunks[0], ScriptText(chunks[1..], 0));
    }
  }

  // ---- Second pass: block comments ----

  lemma {:induction false} BlockPassStep(s: string)
    requires s != "" && (|s| >= 2 ==> !(s[0] == '/' && s[1] == '*'))
    ensures DropBlockComments(s) == [s[0]] + DropBlockComments(s[1..])
  {
    if |s| == 1 {
      assert s == [s[0]] + "";
    }
  }

  lemma {:induction false} BlockPassKeeps(a: string, b: string)
    requires NoPair(a, '/', '*') && (a != "" ==> a[|a| - 1] != '/' || b == "")
    ensures DropBlockComments(a + b) == a + DropBlockComments(b)
  {
    if a == "" {
      assert a + b == b;
    } else {
      HeadAndTail(a, b);
      BlockPassStep(a + b);
      BlockPassKeeps(a[1..], b);
      HeadAndTail(a, DropBlockComments(b));
    }
  }

  lemma {:induction false} NeverCloses(s: string)
    requires NoPair(s, '*', '/')
    ensures FindClose(s) == None
  {
    if |s| >= 2 {
      NeverCloses(s[1..]);
    }
  }

  /** Without a closing mark no block comment is dropped, however many are opened. */
  lemma {:induction false} UnclosedCommentStays(s: string)
    requires NoPair(s, '*', '/')
    ensures DropBlockComments(s) == s
  {
    if |s| >= 2 {
      NeverCloses(s[1..][1..]);
      UnclosedCommentStays(s[1..]);
      assert s[2..] == s[1..][1..] && s == [s[0]] + s[1..];
    }
  }

  lemma {:induction false} ClosesAfter(text: string, b: string)
    requires NoPair(text, '*', '/')
    ensures FindClose(text + "*/" + b) == Some(|text|)
  {
    var s := text + "*/" + b;
    if text != "" {
      assert s[1..] == text[1..] + "*/" + b && s[0] == text[0];
      assert s[1] == if |text| == 1 then '*' else text[1];
      ClosesAfter(text[1..], b);
    }
  }

  lemma {:induction false} BlockPassDrops(text: string, b: string)
    requires NoPair(text, '*', '/')
    ensures DropBlockComments("/*" + text + "*/" + b) == DropBlockComments(b)
  {
    var s := "/*" + text + "*/" + b;
    assert s[2..] == text + "*/" + b;
    ClosesAfter(text, b);
    assert s[2 + |text| + 2..] == b;
  }

  lemma {:induction false} BlockPassComments(comments: seq<Comment>, b: string)
    requires forall i | 0 <= i < |comments| :: IsComment(comments[i])
    ensures DropBlockComments(CommentsText(comments, 1) + b) == CommentsText(comments, 2) + DropBlockComments(b)
  {
    if comments == [] {
      assert CommentsText(comments, 1) + b == b;
    } else {
      BlockPassComments(comments[1..], b);
      BlockPassComment(comments[0], CommentsText(comments[1..], 1) + b);
      Associative(CommentText(comments[0], 1), CommentsText(comments[1..], 1), b);
      Associative(CommentText(comments[0], 2), CommentsText(comments[1..], 2), DropBlockComments(b));
    }
  }

  lemma {:induction false} BlockPassComment(c: Comment, rest: string)
    requires IsComment(c)
    ensures DropBlockComments(CommentText(c, 1) + rest) == CommentText(c, 2) + DropBlockComments(rest)
  {
    match c
    case Line(_) =>
      assert NoPair("\n", '/', '*');
      BlockPassKeeps("\n", rest);
    case Block(text) =>
      BlockPassDrops(text, rest);
      assert "" + DropBlockComments(rest) == DropBlockComments(rest);
  }

  lemma {:induction false} BlockPassLast(c: Chunk)
    requires IsChunk(c)
    ensures DropBlockComments(ChunkText(c, 1)) == ChunkText(c, 2)
  {
    BlockPassComments(c.comments, c.statement);
    BlockPassKeeps(c.statement, "");
    assert c.statement + "" == c.statement;
  }

  lemma {:induction false} BlockPassChunk(c: Chunk, rest: string)
    requires IsChunk(c)
    ensures DropBlockComments(ChunkText(c, 1) + ";\n" + rest) == ChunkText(c, 2) + ";\n" + DropBlockComments(rest)
  {
    var ended := c.statement + ";\n";
    EndsStatement(c.statement);
    BlockPassComments(c.comments, ended + rest);
    BlockPassKeeps(ended, rest);
    Regroup(CommentsText(c.comments, 1), c.statement, ";\n", rest);
    Regroup(CommentsText(c.comments, 2), c.statement, ";\n", DropBlockComments(rest));
  }

  lemma {:induction false} BlockPass(chunks: seq<Chunk>)
    requires AreChunks(chunks)
    ensures DropBlockComments(ScriptText(chunks, 1)) == ScriptText(chunks, 2)
  {
    if |chunks| == 1 {
      BlockPassLast(chunks[0]);
    } else if |chunks| > 1 {
      BlockPass(chunks[1..]);
      BlockPassChunk(chunks[0], ScriptText(chunks[1..], 1));
    }
  }

  // ---- Splitting ----

  lemma {:induction false} CommentsLeaveBlanks(comments: seq<Comment>)
    ensures IsBlank(CommentsText(comments, 2)) && ';' !in CommentsText(comments, 2)
  {
    if comments != [] {
      CommentsLeaveBlanks(comments[1..]);
    }
  }

  lemma {:induction false} StripChunk(blank: string, c: Chunk)
    requires IsBlank(blank) && ';' !in blank && IsChunk(c)
    ensures Strip(blank + ChunkText(c, 2)) == c.statement && ';' !in blank + ChunkText(c, 2)
  {
    CommentsLeaveBlanks(c.comments);
    var all := blank + CommentsText(c.comments, 2);
    assert blank + ChunkText(c, 2) == all + c.statement;
    if c.statement == "" {
      assert all + "" == all;
      StripBlank(all);
    } else {
      StripTrimmed(all, c.statement);
    }
  }

  /** One more piece in front of a split. */
  lemma {:induction false} SplitHead(head: string, rest: string)
    requires ';' !in head
    ensures StripNonBlank(Split(head + ";" + rest, ';'))
         == (if Strip(head) == "" then [] else [Strip(head)]) + StripNonBlank(Split(rest, ';'))
  {
    SplitWithoutSeparator(head, ';');
    SplitConcat(head, ';', rest);
    assert ([head] + Split(rest, ';'))[1..] == Split(rest, ';');
  }

  lemma {:induction false} SplitLast(head: string)
    requires ';' !in head
    ensures StripNonBlank(Split(head, ';')) == if Strip(head) == "" then [] else [Strip(head)]
  {
    SplitWithoutSeparator(head, ';');
    assert [head][1..] == [];
  }

  lemma {:induction false} HeadOfScript(blank: string, chunk: string, rest: string)
    ensures blank + (chunk + ";\n" + rest) == (blank + chunk) + ";" + ("\n" + rest)
  {
  }

  lemma {:induction false} SplitLastChunk(blank: string, c: Chunk)
    requires IsBlank(blank) && ';' !in blank && IsChunk(c)
    ensures StripNonBlank(Split(blank + ChunkText(c, 2), ';')) == if c.statement == "" then [] else [c.statement]
  {
    StripChunk(blank, c);
    SplitLast(blank + ChunkText(c, 2));
  }

  lemma {:induction false} SplitChunk(blank: string, c: Chunk, rest: string)
    requires IsBlank(blank) && ';' !in blank && IsChunk(c)
    ensures StripNonBlank(Split(blank + (ChunkText(c, 2) + ";\n" + rest), ';'))
         == (if c.statement == "" then [] else [c.statement]) + StripNonBlank(Split("\n" + rest, ';'))
  {
    StripChunk(blank, c);
    HeadOfScript(blank, ChunkText(c, 2), rest);
    SplitHead(blank + ChunkText(c, 2), "\n" + rest);
  }

  lemma {:induction false} SplitScript(blank: string, chunks: seq<Chunk>)
    requires IsBlank(blank) && ';' !in blank && AreChunks(chunks) && chunks != []
    ensures StripNonBlank(Split(blank + ScriptText(chunks, 2), ';')) == Statements(chunks)
    decreases |chunks|
  {
    if |chunks| == 1 {
      SplitLastChunk(blank, chunks[0]);
      assert chunks[1..] == [];
    } else {
      SplitChunk(blank, chunks[0], ScriptText(chunks[1..], 2));
      SplitScript("\n", chunks[1..]);
    }
  }

  /** Parsing a script gives its statements back, whatever comments stand before them. */
  lemma {:induction false} CommentsDoNotMatter(chunks: seq<Chunk>)
    requires AreChunks(chunks)
    ensures ParseSqlStatements(ScriptText(chunks, 0)) == Statements(chunks)
  {
    LinePass(chunks);
    BlockPass(chunks);
    if chunks == [] {
      SplitWithoutSeparator("", ';');
      assert Strip("") == "" && [""][1..] == [];
    } else {
      SplitScript("", chunks);
      assert "" + ScriptText(chunks, 2) == ScriptText(chunks, 2);
    }
  }

  function Plain(statements: seq<string>): (chunks: seq<Chunk>)
    ensures |chunks| == |statements| && forall i | 0 <= i < |statements| :: chunks[i] == Chunk([], statements[i])
  {
    seq(|statements|, i requires 0 <= i < |statements| => Chunk([], statements[i]))
  }

  lemma {:induction false} PlainScript(statements: seq<string>)
    requires forall i | 0 <= i < |statements| :: statements[i] != ""
    ensures ScriptText(Plain(statements), 0) == Join(statements, ";\n") && Statements(Plain(statements)) == statements
  {
    if statements != [] {
      assert Plain(statements)[1..] == Plain(statements[1..]);
      PlainScript(statements[1..]);
      assert ChunkText(Chunk([], statements[0]), 0) == statements[0];
    }
  }

  /** Joining statements and parsing the script gives the same list. */
  lemma {:induction false} SplitterRoundTrip(statements: seq<string>)
    requires forall i | 0 <= i < |statements| :: IsStatement(statements[i])
    ensures ParseSqlStatements(Join(statements, ";\n")) == statements
  {
    PlainScript(statements);
    CommentsDoNotMatter(Plain(statements));
  }
}
