/**
 * Host-list resolution (host.go): a single host, or the hosts listed in a
 * ".txt" file, one per line, with blank lines and "#" comments skipped.
 * The file is given as the sequence of lines its scanner produces.
 */
module Host {
  import opened Results
  import opened GoStrings

  /** File mode is chosen by a ".txt" suffix, in any letter case. */
  predicate IsHostFile(input: string) {
    HasSuffix(ToLower(input), ".txt")
  }

  /** The mode decision looks at the last four characters only, ignoring their case. */
  lemma IsHostFileChars(input: string)
    ensures IsHostFile(input) <==>
      && |input| >= 4
      && input[|input| - 4] == '.'
      && (input[|input| - 3] == 't' || input[|input| - 3] == 'T')
      && (input[|input| - 2] == 'x' || input[|input| - 2] == 'X')
      && (input[|input| - 1] == 't' || input[|input| - 1] == 'T')
  {
    var n := |input|;
    if n >= 4 {
      var tail := ToLower(input)[n - 4..];
      assert tail == [LowerChar(input[n - 4]), LowerChar(input[n - 3]), LowerChar(input[n - 2]), LowerChar(input[n - 1])];
    }
  }

  lemma HostFileExamples()
    ensures IsHostFile("hosts.txt") && IsHostFile("HOSTS.TXT")
    ensures !IsHostFile("mc.example.com") && !IsHostFile("txt")
  {
    IsHostFileChars("hosts.txt");
    IsHostFileChars("HOSTS.TXT");
    IsHostFileChars("mc.example.com");
    IsHostFileChars("txt");
  }

  /** A trimmed line is kept when it is not blank and not a "#" comment. */
  predicate Keep(line: string) {
    line != "" && !HasPrefix(line, "#")
  }

  /** Each line with its surrounding white space removed. */
  function Trimmed(lines: seq<string>): (r: seq<string>)
    ensures |r| == |lines|
  {
    seq(|lines|, i requires 0 <= i < |lines| => TrimSpace(lines[i]))
  }

  /** The trimmed lines that pass the filter, in order. */
  function KeptLines(trimmed: seq<string>): seq<string> {
    if trimmed == [] then []
    else
      var line := trimmed[|trimmed| - 1];
      KeptLines(trimmed[..|trimmed| - 1]) + (if Keep(line) then [line] else [])
  }

  /** The hosts read from the given lines, in file order. */
  function KeptHosts(lines: seq<string>): seq<string> {
    KeptLines(Trimmed(lines))
  }

  /** Reading one more line appends its trimmed text when it passes the filter. */
  lemma KeptHostsSnoc(lines: seq<string>, line: string)
    ensures KeptHosts(lines + [line]) ==
      KeptHosts(lines) + (if Keep(TrimSpace(line)) then [TrimSpace(line)] else [])
  {
    var t := Trimmed(lines + [line]);
    assert t[..|lines|] == Trimmed(lines);
  }

  lemma {:induction false} KeptLinesMember(trimmed: seq<string>, h: string)
    ensures h in KeptLines(trimmed) <==> Keep(h) && h in trimmed
  {
    if trimmed != [] {
      var init := trimmed[..|trimmed| - 1];
      KeptLinesMember(init, h);
      assert trimmed == init + [trimmed[|trimmed| - 1]];
    }
  }

  lemma {:induction false} KeptLinesAppend(a: seq<string>, b: seq<string>)
    ensures KeptLines(a + b) == KeptLines(a) + KeptLines(b)
  {
    if b == [] {
      assert a + b == a;
    } else {
      var ab := a + b;
      assert ab[..|ab| - 1] == a + b[..|b| - 1];
      KeptLinesAppend(a, b[..|b| - 1]);
    }
  }

  lemma {:induction false} KeptLinesIndices(trimmed: seq<string>) returns (idx: seq<int>)
    ensures |idx| == |KeptLines(trimmed)|
    ensures forall k :: 0 <= k < |idx| ==> 0 <= idx[k] < |trimmed| && KeptLines(trimmed)[k] == trimmed[idx[k]]
    ensures forall k, m :: 0 <= k < m < |idx| ==> idx[k] < idx[m]
    ensures forall i :: 0 <= i < |trimmed| && Keep(trimmed[i]) ==> i in idx
  {
    if trimmed == [] {
      return [];
    }
    var n := |trimmed| - 1;
    var init := trimmed[..n];
    var prev := KeptLinesIndices(init);
    var kept := KeptLines(trimmed);
    var last := if Keep(trimmed[n]) then [trimmed[n]] else [];
    assert kept == KeptLines(init) + last;
    idx := prev + (if Keep(trimmed[n]) then [n] else []);
    forall k | 0 <= k < |idx|
      ensures 0 <= idx[k] < |trimmed| && kept[k] == trimmed[idx[k]]
    {
      if k < |prev| {
        assert idx[k] == prev[k] && kept[k] == KeptLines(init)[k] && init[prev[k]] == trimmed[prev[k]];
      }
    }
    forall i | 0 <= i < |trimmed| && Keep(trimmed[i])
      ensures i in idx
    {
      if i < n {
        assert init[i] == trimmed[i];
        assert i in prev;
      } else {
        assert idx[|idx| - 1] == n;
      }
    }
  }

  /** Every host read from a file is non-empty, trimmed and not a comment. */
  lemma KeptHostsValid(lines: seq<string>)
    ensures forall h :: h in KeptHosts(lines) ==>
      && h != ""
      && !IsSpace(h[0]) && !IsSpace(h[|h| - 1])
      && h[0] != '#'
  {
    forall h | h in KeptHosts(lines)
      ensures h != "" && !IsSpace(h[0]) && !IsSpace(h[|h| - 1]) && h[0] != '#'
    {
      KeptLinesMember(Trimmed(lines), h);
      var i :| 0 <= i < |lines| && Trimmed(lines)[i] == h;
      TrimmedEnds(lines[i]);
      assert h[..1] == "#" ==> HasPrefix(h, "#");
    }
  }

  /** Reading two consecutive runs of lines gives the two host lists one after the other. */
  lemma KeptHostsAppend(a: seq<string>, b: seq<string>)
    ensures KeptHosts(a + b) == KeptHosts(a) + KeptHosts(b)
  {
    var t := Trimmed(a + b);
    assert t[..|a|] == Trimmed(a);
    assert t[|a|..] == Trimmed(b);
    assert t == Trimmed(a) + Trimmed(b) by {
      assert t == t[..|a|] + t[|a|..];
    }
    KeptLinesAppend(Trimmed(a), Trimmed(b));
  }

  /** A host is read exactly when some line trims to it and it passes the filter. */
  lemma KeptHostsMember(lines: seq<string>, h: string)
    ensures h in KeptHosts(lines) <==> Keep(h) && exists i :: 0 <= i < |lines| && TrimSpace(lines[i]) == h
  {
    var t := Trimmed(lines);
    KeptLinesMember(t, h);
    if h in t {
      var i :| 0 <= i < |t| && t[i] == h;
      assert TrimSpace(lines[i]) == h;
    }
    if exists i :: 0 <= i < |lines| && TrimSpace(lines[i]) == h {
      var i :| 0 <= i < |lines| && TrimSpace(lines[i]) == h;
      assert t[i] == h;
    }
  }

  /**
   * The hosts are the kept lines in file order: the i-th host comes from
   * line idx[i], the indices increase, and every line that passes the
   * filter is one of them.
   */
  lemma KeptHostsIndices(lines: seq<string>) returns (idx: seq<int>)
    ensures |idx| == |KeptHosts(lines)|
    ensures forall k :: 0 <= k < |idx| ==> 0 <= idx[k] < |lines| && KeptHosts(lines)[k] == TrimSpace(lines[idx[k]])
    ensures forall k, m :: 0 <= k < m < |idx| ==> idx[k] < idx[m]
    ensures forall i :: 0 <= i < |lines| && Keep(TrimSpace(lines[i])) ==> i in idx
  {
    var t := Trimmed(lines);
    idx := KeptLinesIndices(t);
    forall i | 0 <= i < |lines| && Keep(TrimSpace(lines[i]))
      ensures i in idx
    {
      assert t[i] == TrimSpace(lines[i]);
    }
  }

  /** A file holding only blank lines and comments yields no hosts. */
  lemma KeptHostsNone(lines: seq<string>)
    requires forall i :: 0 <= i < |lines| ==> !Keep(TrimSpace(lines[i]))
    ensures KeptHosts(lines) == []
  {
    var t := Trimmed(lines);
    if KeptHosts(lines) != [] {
      KeptLinesMember(t, KeptHosts(lines)[0]);
      assert false;
    }
  }

  /** The host file as seen by the program: it could not be opened, or its lines and whether reading them failed. */
  datatype HostFile = OpenFailed | Lines(lines: seq<string>, readFailed: bool)

  datatype HostError = OpenError | ReadError

  /**
   * ResolveHosts: a non-".txt" input is the single host; a ".txt" input is
   * read line by line, each line trimmed and kept when it passes the filter.
   */
  method ResolveHosts(input: string, file: HostFile) returns (hosts: seq<string>, err: Option<HostError>)
    ensures !IsHostFile(input) ==> hosts == [input] && err == None
    ensures IsHostFile(input) && file.OpenFailed? ==> hosts == [] && err == Some(OpenError)
    ensures IsHostFile(input) && file.Lines? && file.readFailed ==> hosts == [] && err == Some(ReadError)
    ensures IsHostFile(input) && file.Lines? && !file.readFailed ==> hosts == KeptHosts(file.lines) && err == None
  {
    if IsHostFile(input) {
      if file.OpenFailed? {
        return [], Some(OpenError);
      }
      var lines := file.lines;
      hosts := [];
      for i := 0 to |lines|
        invariant hosts == KeptHosts(lines[..i])
      {
        var line := TrimSpace(lines[i]);
        if line != "" && !HasPrefix(line, "#") {
          hosts := hosts + [line];
        }
        assert lines[..i + 1] == lines[..i] + [lines[i]];
        KeptHostsSnoc(lines[..i], lines[i]);
      }
      if file.readFailed {
        return [], Some(ReadError);
      }
      assert lines[..|lines|] == lines;
      return hosts, None;
    }
    return [input], None;
  }
}
