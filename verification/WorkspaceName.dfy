/** `workspace_for_path`: the workspace name derived from a path id. */
module WorkspaceName {
  import opened Common
  import opened Text

  function Lower(c: char): char {
    if 'A' <= c <= 'Z' then (c as int + 32) as char else c
  }

  function Lowered(s: string): (r: string)
    ensures |r| == |s| && forall i :: 0 <= i < |s| ==> r[i] == Lower(s[i])
  {
    seq(|s|, i requires 0 <= i < |s| => Lower(s[i]))
  }

  predicate IsHex(c: char) {
    '0' <= c <= '9' || 'a' <= c <= 'f'
  }

  function Undashed(s: string): string {
    Filter(s, Other('-'))
  }

  function Compact(id: string): string {
    Strip(Undashed(Lowered(id)))
  }

  predicate AllHex(s: string) {
    forall c :: c in s ==> IsHex(c)
  }

  /** The name, or nothing when the id is rejected with a ValueError. */
  function WorkspaceFor(id: string): Option<string> {
    if Compact(id) == "" || !AllHex(Compact(id)) then None else Some("ws_" + Compact(id))
  }

  /** Names hold no separator that a path or a key could be split at; two ids share a name
      exactly when they agree up to case, dashes and surrounding blanks; and a name has the
      documented length exactly when 32 digits are left of the id. */
  lemma NamesAreSafe(a: string, b: string)
    requires WorkspaceFor(a).Some? && WorkspaceFor(b).Some?
    ensures ':' !in WorkspaceFor(a).value && '/' !in WorkspaceFor(a).value
            && '\\' !in WorkspaceFor(a).value && '.' !in WorkspaceFor(a).value
    ensures WorkspaceFor(a) == WorkspaceFor(b) <==> Compact(a) == Compact(b)
    ensures |WorkspaceFor(a).value| == 35 <==> |Compact(a)| == 32
  {
    assert WorkspaceFor(a).value[3..] == Compact(a) && WorkspaceFor(b).value[3..] == Compact(b);
  }

  predicate IsDigit(c: char) {
    '0' <= c <= '9' || 'a' <= c <= 'f' || 'A' <= c <= 'F'
  }

  lemma UndashedChars(id: string)
    ensures forall c :: c in Undashed(Lowered(id)) <==> c != '-' && exists d :: d in id && Lower(d) == c
  {
    FilterMembers(Lowered(id), Other('-'));
    forall c ensures c in Lowered(id) <==> exists d :: d in id && Lower(d) == c {
      if d :| d in id && Lower(d) == c {
        var i :| 0 <= i < |id| && id[i] == d;
        assert Lowered(id)[i] == c;
      }
      if c in Lowered(id) {
        var i :| 0 <= i < |id| && Lowered(id)[i] == c;
        assert id[i] in id && Lower(id[i]) == c;
      }
    }
  }

  /** Which ids are accepted: of those without blanks, the ones made of dashes and at least
      one hexadecimal digit of either case. */
  lemma AcceptedIff(id: string)
    requires forall c :: c in id ==> !IsSpace(c)
    ensures WorkspaceFor(id).Some? <==>
            (forall c :: c in id ==> c == '-' || IsDigit(c)) && exists c :: c in id && IsDigit(c)
  {
    var compact := Undashed(Lowered(id));
    UndashedChars(id);
    forall c | c in compact ensures !IsSpace(c) {
      var d :| d in id && Lower(d) == c;
    }
    if compact != "" {
      assert compact[0] in compact && compact[|compact| - 1] in compact;
    }
    StripKeeps(compact);
    if c :| c in id && IsDigit(c) {
      assert Lower(c) in compact;
    }
    if WorkspaceFor(id).Some? {
      forall c | c in id ensures c == '-' || IsDigit(c) {
        assert c != '-' ==> Lower(c) in compact;
      }
      var d :| d in id && Lower(d) == compact[0];
    }
  }

  /** A UUID in its usual form, in lower case. */
  predicate Canonical(id: string) {
    |id| == 36 && forall i: nat :: i < 36 ==> if DashAt(i) then id[i] == '-' else IsHex(id[i])
  }

  /** A UUID with digits of either case. */
  predicate IsUuid(id: string) {
    Canonical(Lowered(id))
  }

  predicate DashAt(i: nat) {
    i == 8 || i == 13 || i == 18 || i == 23
  }

  lemma HexHasNoDash(s: string)
    requires AllHex(s)
    ensures Undashed(s) == s
  {
    FilterKeepsAll(s, Other('-'));
  }

  lemma HexNeedsNoStrip(s: string)
    requires AllHex(s)
    ensures Strip(s) == s
  {
    if s != "" {
      assert s[0] in s && s[|s| - 1] in s;
    }
  }

  /** The five groups of a UUID, without the dashes between them. */
  function Groups(id: string): string
    requires |id| == 36
  {
    id[0..8] + id[9..13] + id[14..18] + id[19..23] + id[24..36]
  }

  lemma AllHexJoin(a: string, b: string)
    requires AllHex(a) && AllHex(b)
    ensures AllHex(a + b)
  {
  }

  lemma HexGroup(id: string, i: nat, j: nat)
    requires Canonical(id) && i <= j <= 36 && forall k: nat :: i <= k < j ==> !DashAt(k)
    ensures AllHex(id[i..j])
  {
    forall c | c in id[i..j] ensures IsHex(c) {
      var k: nat :| k < j - i && id[i..j][k] == c;
      assert id[i + k] == c && !DashAt(i + k);
    }
  }

  /** One group and the dash after it. */
  lemma GroupJoin(id: string, i: nat, j: nat)
    requires Canonical(id) && i <= j < 36 && DashAt(j) && forall k: nat :: i <= k < j ==> !DashAt(k)
    ensures Undashed(id[i..]) == id[i..j] + Undashed(id[j + 1..])
  {
    HexGroup(id, i, j);
    HexHasNoDash(id[i..j]);
    assert id[i..] == id[i..j] + id[j..];
    FilterAppend(id[i..j], id[j..], Other('-'));
    assert id[j..][0] == '-' && id[j..][1..] == id[j + 1..];
  }

  lemma LastGroup(id: string)
    requires Canonical(id)
    ensures Undashed(id[24..]) == id[24..36]
  {
    HexGroup(id, 24, 36);
    HexHasNoDash(id[24..36]);
    assert id[24..] == id[24..36];
  }

  lemma UndashedOfUuid(id: string)
    requires Canonical(id)
    ensures Undashed(id) == Groups(id)
  {
    calc {
      Undashed(id);
      { assert id[0..] == id; GroupJoin(id, 0, 8); }
      id[0..8] + Undashed(id[9..]);
      { GroupJoin(id, 9, 13); }
      id[0..8] + (id[9..13] + Undashed(id[14..]));
      { GroupJoin(id, 14, 18); }
      id[0..8] + (id[9..13] + (id[14..18] + Undashed(id[19..])));
      { GroupJoin(id, 19, 23); }
      id[0..8] + (id[9..13] + (id[14..18] + (id[19..23] + Undashed(id[24..]))));
      { LastGroup(id); }
      id[0..8] + (id[9..13] + (id[14..18] + (id[19..23] + id[24..36])));
      Groups(id);
    }
  }

  lemma GroupsAreHex(id: string)
    requires Canonical(id)
    ensures AllHex(Groups(id)) && |Groups(id)| == 32
  {
    HexGroup(id, 0, 8);
    HexGroup(id, 9, 13);
    HexGroup(id, 14, 18);
    HexGroup(id, 19, 23);
    HexGroup(id, 24, 36);
    AllHexJoin(id[0..8], id[9..13]);
    AllHexJoin(id[0..8] + id[9..13], id[14..18]);
    AllHexJoin(id[0..8] + id[9..13] + id[14..18], id[19..23]);
    AllHexJoin(id[0..8] + id[9..13] + id[14..18] + id[19..23], id[24..36]);
  }

  lemma CompactOfUuid(id: string)
    requires IsUuid(id)
    ensures Compact(id) == Groups(Lowered(id)) && |Compact(id)| == 32 && AllHex(Compact(id))
  {
    UndashedOfUuid(Lowered(id));
    GroupsAreHex(Lowered(id));
    HexNeedsNoStrip(Groups(Lowered(id)));
  }

  /** Where a digit of a UUID stands among the groups. */
  function DigitAt(i: nat): (j: nat)
    requires i < 36 && !DashAt(i)
    ensures j < 32
  {
    if i < 8 then i else if i < 13 then i - 1 else if i < 18 then i - 2 else if i < 23 then i - 3 else i - 4
  }

  lemma DigitKept(id: string, i: nat)
    requires |id| == 36 && i < 36 && !DashAt(i)
    ensures Groups(id)[DigitAt(i)] == id[i]
  {
    if i >= 18 {
      LateDigitKept(id, i);
    } else {
      var front := id[0..8] + id[9..13] + id[14..18];
      assert Groups(id) == front + (id[19..23] + id[24..36]);
      assert front[DigitAt(i)] == id[i];
    }
  }

  lemma LateDigitKept(id: string, i: nat)
    requires |id| == 36 && 18 <= i < 36 && !DashAt(i)
    ensures Groups(id)[DigitAt(i)] == id[i]
  {
    var back := id[19..23] + id[24..36];
    assert Groups(id) == (id[0..8] + id[9..13] + id[14..18]) + back;
    assert back[DigitAt(i) - 16] == id[i];
  }

  lemma GroupsInjective(a: string, b: string)
    requires Canonical(a) && Canonical(b) && Groups(a) == Groups(b)
    ensures a == b
  {
    forall i: nat | i < 36 ensures a[i] == b[i] {
      if !DashAt(i) {
        DigitKept(a, i);
        DigitKept(b, i);
      }
    }
  }

  /** Distinct paths never share a workspace: over UUIDs the name is always valid, always
      35 characters long, and two of them share one only if they differ in case alone. */
  lemma UuidsNeverCollide(a: string, b: string)
    requires IsUuid(a) && IsUuid(b)
    ensures WorkspaceFor(a).Some? && |WorkspaceFor(a).value| == 35
    ensures WorkspaceFor(a).value == "ws_" + Groups(Lowered(a))
    ensures WorkspaceFor(a) == WorkspaceFor(b) <==> Lowered(a) == Lowered(b)
  {
    CompactOfUuid(a);
    CompactOfUuid(b);
    NamesAreSafe(a, b);
    if Groups(Lowered(a)) == Groups(Lowered(b)) {
      GroupsInjective(Lowered(a), Lowered(b));
    }
  }

  /** Outside UUIDs ids that differ in more than case can share a workspace, and the length
      is not fixed. */
  lemma ShortIdsCollide()
    ensures WorkspaceFor("a-b") == WorkspaceFor("AB") == Some("ws_ab")
  {
    assert Lowered("a-b") == "a-b" && Lowered("AB") == "ab";
    assert Undashed("a-b") == "ab" by {
      assert "a-b" == "a" + ("-" + "b");
      FilterAppend("a", "-" + "b", Other('-'));
      FilterAppend("-", "b", Other('-'));
    }
    HexHasNoDash("ab");
    HexNeedsNoStrip("ab");
    assert "ws_" + "ab" == "ws_ab";
  }
}
