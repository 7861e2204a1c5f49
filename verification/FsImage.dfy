/**
 * The file system image: makefsdata.c prints one C array and one list entry for each file, and
 * fs_open of fs.c looks a path up in the list that the compiled text stands for. Comments in
 * the printed text are left out.
 */
module FsImage {
  import opened Bytes
  import opened HexText
  import opened Prelude

  const MAX_PATH_LEN := 256
  const PAYLOAD_ALIGNMENT := 4
  const MAX_COUNT := 999
  /** "NULL", the variable of the entry behind the last one. */
  const NULL_VAR: seq<byte> := [0x4E, 0x55, 0x4C, 0x4C]
  const SLASH: byte := 0x2F
  const UNDERSCORE: byte := 0x5F

  predicate IsNameChar(c: byte) {
    0x41 <= c <= 0x5A || 0x61 <= c <= 0x7A || 0x30 <= c <= 0x39 || c == UNDERSCORE
  }

  function Fixed(path: seq<byte>): (r: seq<byte>)
    ensures |r| == |path|
    ensures forall k :: 0 <= k < |path| ==> r[k] == if IsNameChar(path[k]) then path[k] else UNDERSCORE
  {
    if path == [] then [] else [if IsNameChar(path[0]) then path[0] else UNDERSCORE] + Fixed(path[1..])
  }

  /** The names that are tried: the path with underscores, then with a number behind it. */
  function Candidate(path: seq<byte>, k: nat): (r: seq<byte>) {
    Fixed(path) + if k == 0 then [] else Digits(k)
  }

  /** Such a name has letters, digits and underscores only: what may stand in a C name is kept, all
      else becomes an underscore, and the number is behind it. */
  lemma CandidateWritten(path: seq<byte>, k: nat)
    ensures |Candidate(path, k)| >= |path|
    ensures forall j :: 0 <= j < |path| ==>
              var c := path[j] as char;
              Candidate(path, k)[j] ==
                if 'A' <= c <= 'Z' || 'a' <= c <= 'z' || '0' <= c <= '9' || c == '_' then path[j] else '_' as int
    ensures Candidate(path, k)[|path|..] == if k == 0 then [] else Digits(k)
  {
    hide Digits;
  }

  method FixChars(path: seq<byte>) returns (fixed: seq<byte>)
    ensures fixed == Fixed(path)
  {
    hide IsNameChar;
    fixed := [];
    for i := 0 to |path|
      invariant fixed == Fixed(path)[..i]
    {
      fixed := fixed + [if IsNameChar(path[i]) then path[i] else UNDERSCORE];
      PrefixNext(Fixed(path), i);
    }
  }

  /** How a step of the tool ends: well, with the program giving up, or with a write past the
      end of a name buffer, after which nothing is known. */
  datatype Fate = Done | GivenUp | Overrun

  /** fix_filename_for_c writes past its buffers exactly for a name that is taken and either
      has no room in 256 bytes for a digit or collides with all of the first ten candidates:
      the block has room for the path, one digit and a zero byte. */
  predicate NameOverruns(path: seq<byte>, taken: seq<seq<byte>>) {
    && |path| + 3 != MAX_PATH_LEN
    && Candidate(path, 0) in taken
    && (|path| + 1 >= MAX_PATH_LEN || forall j :: 0 <= j < 10 ==> Candidate(path, j) in taken)
  }

  ghost predicate IsFirstFree(path: seq<byte>, taken: seq<seq<byte>>, k: nat) {
    Candidate(path, k) !in taken && forall j :: 0 <= j < k ==> Candidate(path, j) in taken
  }

  lemma DigitsFit(n: nat)
    ensures |Digits(n)| == 1 <==> n < 10
    ensures |Digits(n)| >= 1
  {
  }

  /** fix_filename_for_c: the first candidate that is not taken. The program gives up for one
      length of the path; that it would also give up when 999 candidates are taken never comes
      to pass. */
  method FixFilename(path: seq<byte>, taken: seq<seq<byte>>) returns (fate: Fate, name: seq<byte>)
    requires |path| < MAX_PATH_LEN
    ensures fate == GivenUp <==> |path| + 3 == MAX_PATH_LEN
    ensures fate == Overrun <==> NameOverruns(path, taken)
    ensures fate == Done ==> |name| < MAX_PATH_LEN
    ensures fate == Done ==> exists k :: 0 <= k < 10 && name == Candidate(path, k) && IsFirstFree(path, taken, k)
  {
    name := [];
    if |path| + 3 == MAX_PATH_LEN {
      return GivenUp, name;
    }
    var fixed := FixChars(path);
    var block := |path| + 2; // malloc(len + 2)
    hide Fixed, Digits;
    var cnt, ok := 0, false;
    name := fixed;
    assert name == Candidate(path, 0) by { assert fixed + [] == fixed; }
    while !ok && cnt < MAX_COUNT
      invariant cnt < 10 && name == Candidate(path, cnt) && |name| == |path| + if cnt == 0 then 0 else 1
      invariant forall j :: 0 <= j < cnt ==> Candidate(path, j) in taken
      invariant ok ==> name !in taken
      decreases MAX_COUNT - cnt, !ok
    {
      ok := true;
      for f := 0 to |taken|
        invariant ok && name !in taken[..f]
      {
        if taken[f] == name {
          ok := false;
          cnt := cnt + 1;
          DigitsFit(cnt);
          if |path| + |Digits(cnt)| + 1 > block {
            return Overrun, name;
          }
          name := fixed + Digits(cnt);
          break;
        }
      }
    }
    assert IsFirstFree(path, taken, cnt);
    if |name| + 1 > MAX_PATH_LEN { // strcpy back into the caller's buffer
      return Overrun, name;
    }
    fate := Done;
  }

  datatype File = File(path: seq<byte>, header: seq<seq<byte>>, data: seq<byte>, flags: nat)

  /** What a request for the file is answered with: its header strings and its bytes. */
  function Served(f: File): (r: seq<byte>) {
    Flatten(f.header) + f.data
  }

  /** Where the payload starts: behind the path and its zero, aligned. */
  function Offset(path: seq<byte>): (n: nat)
    ensures n % PAYLOAD_ALIGNMENT == 0 && |path| + 1 <= n < |path| + 1 + PAYLOAD_ALIGNMENT
  {
    (|path| + PAYLOAD_ALIGNMENT) / PAYLOAD_ALIGNMENT * PAYLOAD_ALIGNMENT
  }

  function Zeros(n: nat): (s: seq<byte>)
    ensures |s| == n
  {
    if n == 0 then [] else Zeros(n - 1) + [0]
  }

  /** The array of a file. */
  function ArrayOf(f: File): (r: seq<byte>) {
    f.path + [0] + Zeros(Offset(f.path) - |f.path| - 1) + Served(f)
  }

  /** A printed declaration: of `data_<name>`, with the text of its initializer, or of
      `file_<name>`, with the entry it stands for. */
  datatype Decl<T> = Decl(name: seq<byte>, init: T)

  /** `{{ file_<next>, data_<name>, data_<name> + <offset>, sizeof(data_<name>) - <offset>, <flags> }}` */
  datatype Link = Link(next: seq<byte>, offset: nat, flags: nat)

  type DataDecl = Decl<seq<byte>>
  type FileDecl = Decl<Link>

  /** Text behind a text is read behind it. */
  lemma {:induction false} ReadBehind(a: seq<byte>, t: seq<byte>)
    requires Read(a).Some?
    ensures Read(a + t) == Put(Read(a).value, Read(t))
    decreases |a|
  {
    if a == [] {
      assert a + t == t;
      assert Read(t).Some? ==> [] + Read(t).value == Read(t).value;
    } else if a[0] == 0x0D || a[0] == 0x0A {
      assert (a + t)[1..] == a[1..] + t;
      ReadBehind(a[1..], t);
    } else {
      var b := ReadByte(a, t);
      hide Read;
      ReadBehind(a[5..], t);
      PutTwice([b], Read(a[5..]).value, Read(t));
    }
  }

  lemma ReadByte(a: seq<byte>, t: seq<byte>) returns (b: byte)
    requires Read(a).Some? && a != [] && a[0] != 0x0D && a[0] != 0x0A
    ensures |a| >= 5 && Read(a[5..]).Some?
    ensures Read(a) == Put([b], Read(a[5..])) && Read(a + t) == Put([b], Read(a[5..] + t))
  {
    b := 16 * HexValue(a[2]).value + HexValue(a[3]).value;
    assert (a + t)[5..] == a[5..] + t;
  }

  /** The printed text so far stands for `s`. */
  ghost predicate Means(text: seq<byte>, s: seq<byte>) {
    Read(text) == Some(s)
  }

  lemma MeansMore(text: seq<byte>, s: seq<byte>, more: seq<byte>, count: nat)
    requires Means(text, s)
    ensures Means(text + Printed(more, count), s + more)
  {
    ReadBehind(text, Printed(more, count));
    ReadPrinted(more, count, []);
    assert Printed(more, count) + [] == Printed(more, count);
    assert more + [] == more;
  }

  lemma MeansBreak(text: seq<byte>, s: seq<byte>)
    requires Means(text, s)
    ensures Means(text + CRLF, s)
  {
    ReadBehind(text, CRLF);
    assert Read(CRLF) == Some([]) by { assert CRLF[1..] == [0x0A]; }
    assert s + [] == s;
  }

  lemma MeansZero(text: seq<byte>, s: seq<byte>)
    requires Means(text, s)
    ensures Means(text + Hex(0), s + [0])
  {
    ReadBehind(text, Hex(0));
    ReadHex(0, []);
    var zero: seq<byte> := [0];
    assert Hex(0) + [] == Hex(0) && zero + [] == zero;
  }

  ghost predicate Distinct(names: seq<seq<byte>>) {
    forall i, j :: 0 <= i < j < |names| ==> names[i] != names[j]
  }

  /** The place of a declaration among others, as the compiler resolves its name. */
  function Resolve(names: seq<seq<byte>>, name: seq<byte>): (r: nat)
    ensures r <= |names| && (r < |names| ==> names[r] == name) && (name in names ==> r < |names|)
  {
    if names == [] then 0 else if names[0] == name then 0 else 1 + Resolve(names[1..], name)
  }

  lemma ResolveDistinct(names: seq<seq<byte>>, j: nat)
    requires Distinct(names) && j < |names|
    ensures Resolve(names, names[j]) == j
  {
  }

  /** The variable of entry number `j` counted from one; before the first one there is NULL. */
  function VarAt(names: seq<seq<byte>>, j: nat): (v: seq<byte>)
    requires j <= |names|
  {
    if j == 0 then NULL_VAR else names[j - 1]
  }

  /** The last of the files with that path. */
  function Latest(files: seq<File>, path: seq<byte>): (r: Option<File>) {
    if files == [] then None
    else
      var last := files[|files| - 1];
      if last.path == path then Some(last) else Latest(files[..|files| - 1], path)
  }

  /** The declarations of one file. */
  ghost predicate Entry(f: File, name: seq<byte>, next: seq<byte>, data: DataDecl, entry: FileDecl) {
    && name != NULL_VAR && data.name == entry.name == name
    && Means(data.init, ArrayOf(f)) && 0 !in f.path
    && entry.init == Link(next, Offset(f.path), f.flags)
  }

  function NamesOf<T>(decls: seq<Decl<T>>): (r: seq<seq<byte>>)
    ensures |r| == |decls| && forall k :: 0 <= k < |decls| ==> r[k] == decls[k].name
  {
    seq(|decls|, k requires 0 <= k < |decls| => decls[k].name)
  }

  class Tool {
    /** the list of C names that are taken */
    var names: seq<seq<byte>>
    /** the two files that are written */
    var dataFile: seq<DataDecl>
    var structFile: seq<FileDecl>
    var lastFileVar: seq<byte>
    ghost var files: seq<File>

    ghost predicate Valid()
      reads this
    {
      Entries(files, names, dataFile, structFile) && lastFileVar == VarAt(names, |names|)
    }

    constructor ()
      ensures Valid() && files == [] && names == []
    {
      names, dataFile, structFile, lastFileVar := [], [], [], NULL_VAR;
      files := [];
    }

    /** file_put_ascii for each header string, on lines of its own. */
    method PutHeader(text: seq<byte>, header: seq<seq<byte>>, ghost s: seq<byte>) returns (out: seq<byte>)
      requires Means(text, s)
      ensures Means(out, s + Flatten(header))
    {
      hide Means;
      out := text;
      assert s + [] == s && Flatten<byte>([]) == [];
      for k := 0 to |header|
        invariant Means(out, s + Flatten(header[..k]))
      {
        ghost var done := s + Flatten(header[..k]);
        MeansBreak(out, done);
        MeansBreak(out + CRLF, done);
        var before := out + CRLF + CRLF;
        MeansMore(before, done, header[k], 0);
        var count;
        out, count := FilePutAscii(before, header[k], 0);
        assert header[..k + 1] == header[..k] + [header[k]];
        FlattenAppend(header[..k], header[k]);
        assert done + header[k] == s + (Flatten(header[..k]) + header[k]);
      }
      assert header[..|header|] == header;
    }

    /** The path with its zero, padded to the alignment of the payload. */
    method PutPath(path: seq<byte>) returns (text: seq<byte>, i: nat)
      ensures i == Offset(path) && Means(text, path + [0] + Zeros(i - |path| - 1))
    {
      hide Means;
      MeansNothing();
      MeansMore([], [], path + [0], 0);
      assert [] + (path + [0]) == path + [0];
      text, i := FilePutAscii([], path + [0], 0);
      assert path + [0] + Zeros(0) == path + [0];
      while i % PAYLOAD_ALIGNMENT != 0
        invariant |path| + 1 <= i <= Offset(path)
        invariant Means(text, path + [0] + Zeros(i - |path| - 1))
        decreases Offset(path) - i
      {
        MeansZero(text, path + [0] + Zeros(i - |path| - 1));
        assert path + [0] + Zeros(i - |path| - 1) + [0] == path + [0] + Zeros(i - |path|);
        text := text + Hex(0);
        i := i + 1;
      }
      AlignedBetween(|path| + 1, i, Offset(path));
    }

    /** The text of the whole array of a file. */
    method PutArray(f: File, buf: array<byte>) returns (text: seq<byte>, offset: nat)
      requires buf.Length > 20
      modifies buf
      ensures Means(text, ArrayOf(f)) && offset == Offset(f.path)
    {
      hide Means, Offset;
      text, offset := PutPath(f.path);
      ghost var s := f.path + [0] + Zeros(offset - |f.path| - 1);
      MeansBreak(text, s);
      text := PutHeader(text + CRLF, f.header, s);
      MeansBreak(text, s + Flatten(f.header));
      MeansBreak(text + CRLF, s + Flatten(f.header));
      MeansMore(text + CRLF + CRLF, s + Flatten(f.header), f.data, 0);
      assert s + Flatten(f.header) + f.data == s + Served(f);
      text := ProcessFileData(text + CRLF + CRLF, f.data, buf);
    }

    /** process_file: names the file, prints its array and an entry that is linked to the one
        before. Paths start with a slash; a path of 256 bytes does not fit its buffer. */
    method ProcessFile(f: File, buf: array<byte>) returns (fate: Fate)
      requires Valid() && f.path != [] && f.path[0] == SLASH && 0 !in f.path && buf.Length > 20
      modifies this, buf
      ensures Valid() && files == old(files) + (if fate == Done then [f] else [])
      ensures fate == GivenUp <==> |f.path| + 3 == MAX_PATH_LEN
      ensures fate == Overrun <==> |f.path| >= MAX_PATH_LEN || NameOverruns(f.path, old(names))
      ensures fate == Done ==>
        exists k :: 0 <= k < 10 && IsFirstFree(f.path, old(names), k) && names == old(names) + [Candidate(f.path, k)]
      ensures fate != Done ==> names == old(names)
    {
      hide Means, Digits, NameOverruns, Tool.Valid;
      if |f.path| >= MAX_PATH_LEN {
        return Overrun;
      }
      var varname;
      fate, varname := FixFilename(f.path, names);
      if fate != Done {
        return;
      }
      ghost var k :| 0 <= k < 10 && varname == Candidate(f.path, k) && IsFirstFree(f.path, names, k);
      CandidateNotNull(f.path, k);
      PutFile(f, varname, buf);
    }

    /** The rest of process_file, once the name has been found. */
    method PutFile(f: File, varname: seq<byte>, buf: array<byte>)
      requires Valid() && varname !in names && varname != NULL_VAR && 0 !in f.path && buf.Length > 20
      modifies this, buf
      ensures Valid() && files == old(files) + [f] && names == old(names) + [varname]
    {
      hide Means, Offset;
      var text, offset := PutArray(f, buf);
      var data, entry := Decl(varname, text), Decl(varname, Link(lastFileVar, offset, f.flags));
      assert Entry(f, varname, VarAt(names, |names|), data, entry);
      hide *;
      EntriesMore(files, names, dataFile, structFile, f, varname, data, entry);
      names, dataFile, structFile := names + [varname], dataFile + [data], structFile + [entry];
      lastFileVar := varname;
      files := files + [f];
    }

    /** fs_open on the compiled image: the list is followed from FS_ROOT, and every name in it is
        resolved among all the declarations. The file found is the last one that was processed
        under the path, and it is served exactly as it was put in. */
    method FsOpen(name: seq<byte>) returns (found: Option<(seq<byte>, nat)>)
      requires Valid() && 0 !in name
      ensures found == match Latest(files, name)
                       case None => None
                       case Some(f) => Some((Flatten(f.header) + f.data, f.flags))
    {
      hide Entry, Entries, Means, ArrayOf, Resolve, Read, CString, Latest, Offset;
      var f := lastFileVar;
      ghost var j: nat := |names|;
      found := None;
      EntryCounts(files, names, dataFile, structFile);
      assert files[..j] == files;
      while f != NULL_VAR
        invariant j <= |names| == |files| && f == VarAt(names, j) && Latest(files, name) == Latest(files[..j], name)
        decreases j
      {
        j := j - 1;
        EntryResolved(files, names, dataFile, structFile, j);
        var entry := structFile[Resolve(NamesOf(structFile), f)];
        var data := dataFile[Resolve(NamesOf(dataFile), f)];
        EntryRead(files[j], f, VarAt(names, j), data, entry);
        LatestStep(files, j, name);
        var bytes := Read(data.init).value;
        if CString(bytes) == name {
          return Some((bytes[entry.init.offset..], entry.init.flags));
        }
        f := entry.init.next;
      }
      NullIsFirst(files, names, dataFile, structFile, j);
      LatestNone(files, name);
    }
  }

  lemma NullIsFirst(files: seq<File>, names: seq<seq<byte>>, data: seq<DataDecl>, entries: seq<FileDecl>, j: nat)
    requires Entries(files, names, data, entries) && j <= |names|
    ensures VarAt(names, j) == NULL_VAR ==> j == 0
  {
    if j > 0 {
      EntryResolved(files, names, data, entries, j - 1);
    }
  }

  lemma EntryCounts(files: seq<File>, names: seq<seq<byte>>, data: seq<DataDecl>, entries: seq<FileDecl>)
    requires Entries(files, names, data, entries)
    ensures |names| == |data| == |entries| == |files|
  {
  }

  lemma LatestNone(files: seq<File>, path: seq<byte>)
    ensures Latest(files[..0], path) == None
  {
  }

  lemma LatestStep(files: seq<File>, j: nat, path: seq<byte>)
    requires j < |files|
    ensures Latest(files[..j + 1], path) == if files[j].path == path then Some(files[j]) else Latest(files[..j], path)
  {
    assert files[..j + 1][..j] == files[..j];
  }

  /** What fs_open gets out of an entry. */
  lemma EntryRead(f: File, name: seq<byte>, next: seq<byte>, data: DataDecl, entry: FileDecl)
    requires Entry(f, name, next, data, entry)
    ensures Read(data.init).Some? && entry.init.next == next && entry.init.flags == f.flags
    ensures var bytes := Read(data.init).value;
      CString(bytes) == f.path && entry.init.offset <= |bytes| && bytes[entry.init.offset..] == Served(f)
  {
    hide Served;
    PathRead(f);
  }

  lemma CandidateNotNull(path: seq<byte>, k: nat)
    requires path != [] && path[0] == SLASH
    ensures Candidate(path, k) != NULL_VAR
  {
    assert Candidate(path, k)[0] == Fixed(path)[0] == UNDERSCORE != NULL_VAR[0];
  }

  ghost predicate Entries(files: seq<File>, names: seq<seq<byte>>, data: seq<DataDecl>, entries: seq<FileDecl>) {
    && Distinct(names) && |names| == |data| == |entries| == |files|
    && forall j :: 0 <= j < |files| ==> Entry(files[j], names[j], VarAt(names, j), data[j], entries[j])
  }

  lemma EntriesMore(files: seq<File>, names: seq<seq<byte>>, data: seq<DataDecl>, entries: seq<FileDecl>,
      f: File, name: seq<byte>, d: DataDecl, e: FileDecl)
    requires Entries(files, names, data, entries) && name !in names && Entry(f, name, VarAt(names, |names|), d, e)
    ensures Entries(files + [f], names + [name], data + [d], entries + [e])
    ensures VarAt(names + [name], |names| + 1) == name
  {
    hide Entry;
    VarsMore(names, name);
    hide VarAt;
  }

  lemma VarsMore(names: seq<seq<byte>>, name: seq<byte>)
    ensures forall j :: 0 <= j <= |names| ==> VarAt(names + [name], j) == VarAt(names, j)
    ensures VarAt(names + [name], |names| + 1) == name
  {
  }

  /** Because the names differ, the compiler takes the declarations that belong together. */
  lemma EntryResolved(files: seq<File>, names: seq<seq<byte>>, data: seq<DataDecl>, entries: seq<FileDecl>, j: nat)
    requires Entries(files, names, data, entries) && j < |files|
    ensures Resolve(NamesOf(entries), names[j]) == j && Resolve(NamesOf(data), names[j]) == j
    ensures names[j] != NULL_VAR && Entry(files[j], names[j], VarAt(names, j), data[j], entries[j])
  {
    assert NamesOf(entries) == names && NamesOf(data) == names by {
      forall i | 0 <= i < |names| ensures entries[i].name == names[i] && data[i].name == names[i] {
        assert Entry(files[i], names[i], VarAt(names, i), data[i], entries[i]);
      }
    }
    hide Entry;
    ResolveDistinct(names, j);
  }

  /** The path is read up to its zero, and behind the padding stands what is served. */
  lemma PathRead(f: File)
    requires 0 !in f.path
    ensures CString(ArrayOf(f)) == f.path && ArrayOf(f)[Offset(f.path)..] == Served(f)
  {
    hide Served;
    var a, n := ArrayOf(f), |f.path|;
    var rest := a[n + 1..];
    assert a == f.path + ([0] + rest);
    CStringBehind(f.path, [0] + rest);
    assert f.path + [] == f.path;
  }

  lemma AlignedBetween(lo: nat, i: nat, n: nat)
    requires lo <= i <= n < lo + PAYLOAD_ALIGNMENT && i % PAYLOAD_ALIGNMENT == 0 && n % PAYLOAD_ALIGNMENT == 0
    ensures i == n
  {
  }

  lemma MeansNothing()
    ensures Means([], [])
  {
  }

  /** A whole image: every file is in it, in order, up to the first for which the program gives
      up or writes past a buffer, and the fate says which and why. */
  method MakeImage(files: seq<File>, buf: array<byte>) returns (tool: Tool, fate: Fate)
    requires buf.Length > 20
    requires forall k :: 0 <= k < |files| ==> files[k].path != [] && files[k].path[0] == SLASH && 0 !in files[k].path
    modifies buf
    ensures fresh(tool) && tool.Valid() && tool.files <= files && (fate == Done <==> tool.files == files)
    ensures var n := |tool.files|;
      && (fate == GivenUp <==> n < |files| && |files[n].path| + 3 == MAX_PATH_LEN)
      && (fate == Overrun <==>
            n < |files| && (|files[n].path| >= MAX_PATH_LEN || NameOverruns(files[n].path, tool.names)))
  {
    tool := new Tool();
    hide Entries, Candidate;
    fate := Done;
    var i := 0;
    while i < |files| && fate == Done
      invariant fresh(tool) && tool.Valid() && i <= |files| && (fate != Done ==> i > 0)
      invariant tool.files == files[..if fate == Done then i else i - 1]
      invariant fate == GivenUp <==> i > 0 && fate != Done && |files[i - 1].path| + 3 == MAX_PATH_LEN
      invariant fate == Overrun ==> |files[i - 1].path| >= MAX_PATH_LEN || NameOverruns(files[i - 1].path, tool.names)
    {
      fate := tool.ProcessFile(files[i], buf);
      i := i + 1;
    }
  }

  /** A slash, an `a` and one of eleven bytes that no C name has. */
  function OddPath(i: nat): (path: seq<byte>)
    requires i <= 10
  {
    [SLASH, 0x61, 0x21 + i]
  }

  lemma OddCandidate(i: nat, k: nat)
    requires i <= 10 && k < 10
    ensures Candidate(OddPath(i), k) == [UNDERSCORE, 0x61, UNDERSCORE] + if k == 0 then [] else [0x30 + k]
  {
    assert Fixed(OddPath(i)) == [UNDERSCORE, 0x61, UNDERSCORE];
  }

  /** Eleven files in one directory, with names like `a!` and `a#`: the eleventh name is printed
      past the end of its block. */
  method EleventhOverruns(buf: array<byte>) returns (tool: Tool, fate: Fate)
    requires buf.Length > 20
    modifies buf
    ensures fresh(tool) && |tool.files| == 10 && fate == Overrun
    ensures forall i :: 0 <= i < 10 ==> tool.files[i].path == OddPath(i)
  {
    tool := new Tool();
    hide Candidate, Entries;
    for i := 0 to 10
      invariant fresh(tool) && tool.Valid() && |tool.files| == |tool.names| == i
      invariant forall k :: 0 <= k < i ==> tool.files[k].path == OddPath(k) && tool.names[k] == Candidate(OddPath(0), k)
    {
      OddStep(tool.names, i);
      fate := tool.ProcessFile(File(OddPath(i), [], [], 0), buf);
    }
    OddStep(tool.names, 10);
    fate := tool.ProcessFile(File(OddPath(10), [], [], 0), buf);
  }

  /** With the first `i` candidates taken, the next one is free, or no free one fits. */
  lemma OddStep(names: seq<seq<byte>>, i: nat)
    requires |names| == i <= 10 && forall k :: 0 <= k < i ==> names[k] == Candidate(OddPath(0), k)
    ensures i < 10 ==> !NameOverruns(OddPath(i), names)
    ensures i < 10 ==> forall k :: 0 <= k < 10 && IsFirstFree(OddPath(i), names, k) ==> k == i
    ensures i < 10 ==> Candidate(OddPath(i), i) == Candidate(OddPath(0), i)
    ensures i == 10 ==> NameOverruns(OddPath(i), names)
  {
    forall k: nat | k < 10 ensures Candidate(OddPath(i), k) == Candidate(OddPath(0), k) {
      OddCandidate(i, k);
      OddCandidate(0, k);
    }
    if i < 10 {
      forall k: nat | k < i ensures names[k] != Candidate(OddPath(i), i) && Candidate(OddPath(i), k) in names {
        OddCandidate(i, i);
        OddCandidate(0, k);
        assert k > 0 ==> names[k][3] == 0x30 + k && Candidate(OddPath(i), i)[3] == 0x30 + i;
        assert names[k] in names;
      }
    } else {
      assert names[0] in names;
      forall k: nat | k < 10 ensures Candidate(OddPath(i), k) in names {
        assert names[k] in names;
      }
    }
  }

  /** With different paths, each file is the one that is found under its path. */
  lemma {:induction false} LatestOfDistinct(files: seq<File>, k: nat)
    requires k < |files| && forall i, j :: 0 <= i < j < |files| ==> files[i].path != files[j].path
    ensures Latest(files, files[k].path) == Some(files[k])
    decreases |files|
  {
    if k < |files| - 1 {
      LatestOfDistinct(files[..|files| - 1], k);
    }
  }
}
