/**
  The SD card as a tree of files and directories, and its path names.

  Paths are compared without regard to case, as on FAT: the card is a map from
  lower-case paths, while the path-name buffer holds names as the directory spells them.
*/
module CardTree {
  // ----- names -----

  type Bytes = seq<char>
  datatype Node = File(content: Bytes) | Dir
  type Card = map<string, Node>

  const STAGE: string := "/apgtmppackfolder"

  function LowerChar(c: char): char {
    if 'A' <= c <= 'Z' then (c as int + 32) as char else c
  }

  // toLower
  function Lower(s: string): (r: string)
    ensures |r| == |s|
    ensures forall i :: 0 <= i < |s| ==> r[i] == LowerChar(s[i])
  {
    seq(|s|, i requires 0 <= i < |s| => LowerChar(s[i]))
  }

  // The capital letters become small ones,
  lemma LowerLetters()
    ensures Lower("ABCDEFGHIJKLMNOPQRSTUVWXYZ") == "abcdefghijklmnopqrstuvwxyz"
  {
  }

  // and nothing else changes.
  lemma LowerOthers(c: char)
    requires c !in "ABCDEFGHIJKLMNOPQRSTUVWXYZ"
    ensures LowerChar(c) == c
  {
    if 'A' <= c <= 'Z' { IsCapital(c); }
  }

  lemma IsCapital(c: char)
    requires 'A' <= c <= 'Z'
    ensures c in "ABCDEFGHIJKLMNOPQRSTUVWXYZ"
  {
    assert "ABCDEFGHIJKLMNOPQRSTUVWXYZ"[c as int - 'A' as int] == c;
  }

  lemma LowerTwice(a: string)
    ensures Lower(Lower(a)) == Lower(a)
  {
  }

  lemma LowerPart(s: string, i: nat, j: nat)
    requires Lower(s) == s && i <= j <= |s|
    ensures Lower(s[i..j]) == s[i..j]
  {
  }

  lemma LowerPrefix(p: string, i: nat)
    requires i <= |p|
    ensures Lower(p)[..i] == Lower(p[..i])
  {
  }

  lemma LowerPath(p: string, n: string)
    ensures Lower(p + ("/" + n)) == Lower(p) + ("/" + Lower(n))
    ensures (p + ("/" + n))[..|p|] == p && |Lower(p)| == |p|
  {
  }

  // ----- paths -----

  // Absolute, lower-case, without empty components.
  ghost predicate GoodPath(p: string) {
    && |p| >= 2 && p[0] == '/' && p[|p| - 1] != '/' && Lower(p) == p
    && forall i, j :: 0 <= i && j == i + 1 && j < |p| && p[i] == '/' ==> p[j] != '/'
  }

  // q lies somewhere below directory p.
  predicate Under(p: string, q: string) {
    |p| < |q| && q[..|p|] == p && q[|p|] == '/'
  }

  lemma Below(p: string, q: string, r: string)
    requires Under(p, q) && Under(q, r)
    ensures Under(p, r)
  {
  }

  predicate Child(p: string, q: string) {
    Under(p, q) && '/' !in q[|p| + 1..]
  }

  // Every directory on the way to q exists.
  predicate ParentsIn(c: Card, q: string) {
    forall n :: 0 < n < |q| && q[n] == '/' ==> q[..n] in c && c[q[..n]] == Dir
  }

  ghost predicate WellFormed(c: Card) {
    forall q :: q in c ==> GoodPath(q) && ParentsIn(c, q)
  }

  ghost predicate Empty(c: Card, p: string) {
    forall q :: q in c ==> !Under(p, q)
  }

  lemma RootNotIn(c: Card)
    requires WellFormed(c)
    ensures "" !in c
  {
  }

  lemma NothingUnder(c: Card, q: string)
    requires WellFormed(c) && !(q in c && c[q].Dir?) && q != ""
    ensures Empty(c, q)
  {
  }

  lemma UnlinkWellFormed(c: Card, p: string)
    requires WellFormed(c) && p in c && (c[p].Dir? ==> Empty(c, p))
    ensures WellFormed(c - {p})
  {
    hide GoodPath, Lower;
    var c' := c - {p};
    forall q | q in c' ensures ParentsIn(c', q) {
      assert ParentsIn(c, q);
      forall n | 0 < n < |q| && q[n] == '/' ensures q[..n] in c' && c'[q[..n]] == Dir {
        assert Under(q[..n], q);
      }
    }
  }

  lemma AddWellFormed(c: Card, p: string, x: Node)
    requires WellFormed(c) && p !in c && GoodPath(p) && ParentsIn(c, p)
    ensures WellFormed(c[p := x])
  {
    hide GoodPath, Lower;
    var c' := c[p := x];
    forall q | q in c' ensures GoodPath(q) && ParentsIn(c', q) {
      if q != p { assert ParentsIn(c, q); }
    }
  }

  lemma ParentsWithoutSelf(c: Card, q: string)
    ensures ParentsIn(c - {q}, q) == ParentsIn(c, q)
  {
  }

  // ----- strtok -----

  predicate Token(t: string) {
    t != "" && '/' !in t && Lower(t) == t
  }

  lemma TokenLower(n: string)
    requires Token(n)
    ensures Lower(n) == n
  {
  }

  function FirstSlash(s: string): (n: nat)
    ensures n <= |s| && '/' !in s[..n] && (n < |s| ==> s[n] == '/')
  {
    if s == "" || s[0] == '/' then 0
    else
      var n := FirstSlash(s[1..]);
      assert s[..n + 1] == [s[0]] + s[1..][..n];
      n + 1
  }

  lemma {:induction false} SlashAfter(a: string, b: string)
    requires '/' !in a && b != "" && b[0] == '/'
    ensures FirstSlash(a + b) == |a|
    decreases |a|
  {
    if a == "" {
      assert a + b == b;
    } else {
      assert (a + b)[1..] == a[1..] + b;
      SlashAfter(a[1..], b);
    }
  }

  // The pieces of s between slashes.
  function Tokens(s: string): seq<string>
    decreases |s|
  {
    if s == "" then []
    else if s[0] == '/' then Tokens(s[1..])
    else
      var n := FirstSlash(s);
      [s[..n]] + Tokens(s[n..])
  }

  lemma {:induction false} TokensAre(s: string)
    requires Lower(s) == s
    ensures forall i :: 0 <= i < |Tokens(s)| ==> Token(Tokens(s)[i])
    decreases |s|
  {
    if s != "" {
      if s[0] == '/' {
        LowerPart(s, 1, |s|);
        TokensAre(s[1..]);
      } else {
        var n := FirstSlash(s);
        LowerPart(s, n, |s|);
        LowerPart(s, 0, n);
        TokensAre(s[n..]);
      }
    }
  }

  lemma {:induction false} TokensAppend(p: string, t: string)
    requires Token(t)
    ensures Tokens(p + ("/" + t)) == Tokens(p) + [t]
    decreases |p|
  {
    hide Lower;
    var s := p + ("/" + t);
    if p == "" {
      assert s[1..] == t && FirstSlash(t) == |t|;
      assert t[..|t|] == t && t[|t|..] == "";
    } else if p[0] == '/' {
      assert s[1..] == p[1..] + ("/" + t);
      TokensAppend(p[1..], t);
    } else {
      var n := FirstSlash(p);
      assert p == p[..n] + p[n..] && s == p[..n] + (p[n..] + ("/" + t));
      SlashAfter(p[..n], p[n..] + ("/" + t));
      assert s[..n] == p[..n] && s[n..] == p[n..] + ("/" + t);
      TokensAppend(p[n..], t);
    }
  }

  // The path with the given pieces.
  function Join(ts: seq<string>): string {
    if ts == [] then "" else Join(ts[..|ts| - 1]) + ("/" + ts[|ts| - 1])
  }

  lemma {:induction false} JoinFront(t: string, ts: seq<string>)
    ensures Join([t] + ts) == "/" + t + Join(ts)
    decreases |ts|
  {
    if ts == [] {
      assert [t] + ts == [t] && [t][..0] == [];
    } else {
      var l, us := |ts| - 1, [t] + ts;
      JoinFront(t, ts[..l]);
      assert us[..l + 1] == [t] + ts[..l] && us[l + 1] == ts[l];
      assert Join(us) == Join(us[..l + 1]) + ("/" + us[l + 1]);
      assert Join(ts) == Join(ts[..l]) + ("/" + ts[l]);
    }
  }

  lemma JoinStep(ts: seq<string>, i: nat)
    requires i < |ts|
    ensures Join(ts[..i + 1]) == Join(ts[..i]) + ("/" + ts[i])
  {
    assert ts[..i + 1][..i] == ts[..i];
  }

  lemma {:induction false} JoinPrefix(ts: seq<string>, k: nat)
    requires k <= |ts|
    ensures |Join(ts[..k])| <= |Join(ts)| && Join(ts)[..|Join(ts[..k])|] == Join(ts[..k])
    ensures k < |ts| ==> |Join(ts[..k])| < |Join(ts)| && Join(ts)[|Join(ts[..k])|] == '/'
    decreases |ts|
  {
    if k == |ts| {
      assert ts[..k] == ts;
    } else {
      var l := |ts| - 1;
      JoinPrefix(ts[..l], k);
      assert ts[..l][..k] == ts[..k];
    }
  }

  lemma SuffixGood(s: string, n: nat)
    requires GoodPath(s) && n < |s| && s[n] == '/'
    ensures GoodPath(s[n..])
  {
    LowerPart(s, n, |s|);
    var r := s[n..];
    forall i, j | 0 <= i && j == i + 1 && j < |r| && r[i] == '/' ensures r[j] != '/' {
      assert s[n + i] == '/' && s[n + j] != '/';
    }
  }

  // A good path is made of its pieces.
  lemma {:induction false} JoinTokens(s: string)
    requires s == "" || GoodPath(s)
    ensures Join(Tokens(s)) == s
    decreases |s|
  {
    hide Lower;
    if s != "" {
      var r := s[1..];
      var n := FirstSlash(r);
      var t, rest := r[..n], r[n..];
      assert r[0] != '/' by { assert s[0] == '/' && s[1] != '/'; }
      assert s == "/" + t + rest;
      if rest != "" { SuffixGood(s, n + 1); }
      JoinTokens(rest);
      assert Tokens(s) == [t] + Tokens(rest);
      JoinFront(t, Tokens(rest));
    }
  }

  lemma TokensOf(s: string)
    requires GoodPath(s)
    ensures Join(Tokens(s)) == s && forall i :: 0 <= i < |Tokens(s)| ==> Token(Tokens(s)[i])
  {
    hide Token;
    TokensAre(s);
    JoinTokens(s);
  }

  lemma NoSlashAfter(head: string, t: string, n: nat)
    requires Token(t) && |head| < n < |head + ("/" + t)|
    ensures (head + ("/" + t))[n] != '/'
  {
  }

  // Every directory on the way to a path is made of its first pieces.
  lemma {:induction false} PrefixIsJoin(ts: seq<string>, n: nat) returns (k: nat)
    requires forall i :: 0 <= i < |ts| ==> Token(ts[i])
    requires 0 < n < |Join(ts)| && Join(ts)[n] == '/'
    ensures 0 < k < |ts| && Join(ts)[..n] == Join(ts[..k])
    decreases |ts|
  {
    var l := |ts| - 1;
    var head, t := Join(ts[..l]), ts[l];
    if |head| < n {
      NoSlashAfter(head, t, n);
    } else if n == |head| {
      k := l;
      assert Join(ts)[..n] == head;
    } else {
      k := PrefixIsJoin(ts[..l], n);
      assert ts[..l][..k] == ts[..k] && Join(ts)[..n] == head[..n];
    }
  }

  lemma TokenGood(t: string)
    requires Token(t)
    ensures GoodPath("/" + t)
  {
  }

  lemma ConcatGood(p: string, q: string)
    requires GoodPath(p) && GoodPath(q)
    ensures GoodPath(p + q)
  {
  }

  lemma AppendGood(p: string, t: string)
    requires (p == "" || GoodPath(p)) && Token(t)
    ensures GoodPath(p + ("/" + t))
  {
    hide GoodPath, Token;
    TokenGood(t);
    if p == "" { assert p + ("/" + t) == "/" + t; } else { ConcatGood(p, "/" + t); }
  }

  // ----- the members of a directory -----

  // The piece of q that follows k.
  function Member(k: string, q: string): string
    requires |k| < |q|
  {
    q[|k| + 1..][..FirstSlash(q[|k| + 1..])]
  }

  lemma MemberIs(k: string, n: string, q: string)
    requires '/' !in n && (q == k + ("/" + n) || Under(k + ("/" + n), q))
    ensures |k| < |q| && Member(k, q) == n
  {
    var l := |k| + 1 + |n|;
    assert q[|k| + 1..] == n + q[l..] by { assert q[..l] == k + ("/" + n); }
    if l < |q| { SlashAfter(n, q[l..]); }
  }

  // A path below a directory is one of its members or below one.
  lemma MemberAbove(k: string, q: string)
    requires Under(k, q)
    ensures var a := k + ("/" + Member(k, q)); (a == q || Under(a, q)) && '/' !in Member(k, q)
  {
  }

  // A path below one member of a directory is not below another.
  lemma Apart(k: string, m: string, n: string, q: string)
    requires Token(m) && Token(n) && m != n && Under(k + ("/" + m), q)
    ensures q != k + ("/" + n) && !Under(k + ("/" + n), q)
  {
    hide Lower, Member;
    MemberIs(k, m, q);
    if q == k + ("/" + n) || Under(k + ("/" + n), q) { MemberIs(k, n, q); }
  }

  // A path lies below the same member of the root as the directories above it.
  lemma SameMember(p: string, q: string)
    requires GoodPath(p) && Under(p, q)
    ensures Member("", q) == Member("", p)
  {
    hide Member, Lower;
    assert Under("", p);
    MemberAbove("", p);
    var n := Member("", p);
    var a := "" + ("/" + n);
    if a != p { Below(a, p, q); }
    MemberIs("", n, q);
  }

  lemma ChildName(k: string, q: string)
    requires Child(k, q)
    ensures |q| > |k| && q == k + ("/" + q[|k| + 1..])
  {
  }

  lemma EntryToken(k: string, q: string)
    requires Child(k, q) && GoodPath(q)
    ensures Token(q[|k| + 1..])
  {
  }

  // ----- the staging folder -----

  predicate Staged(p: string) { p == STAGE || Under(STAGE, p) }

  lemma StageItself()
    ensures GoodPath(STAGE) && Staged(STAGE)
  {
  }

  lemma StageGood(p: string)
    requires GoodPath(p)
    ensures GoodPath(STAGE + p) && GoodPath(STAGE) && Staged(STAGE)
  {
    StageItself();
    ConcatGood(STAGE, p);
  }

  lemma StagedBelow(p: string, q: string)
    requires Staged(p) && (q == p || Under(p, q))
    ensures Staged(q)
  {
  }

  lemma UnderNotStaged(q: string, r: string)
    requires !Staged(q) && q != "" && Under(q, r)
    ensures !Staged(r)
  {
  }

  lemma ChildNotStaged(k: string, n: string)
    requires !Staged(k) && k != ""
    ensures !Staged(k + ("/" + n))
  {
    hide Staged;
    var q := k + ("/" + n);
    assert q[..|k|] == k && q[|k|] == '/';
    UnderNotStaged(k, q);
  }

  lemma StagedAppend(p: string, t: string)
    requires Staged(p)
    ensures Staged(p + ("/" + t))
  {
  }

  lemma RootStaged(n: string)
    requires '/' !in n && Staged("/" + n)
    ensures "/" + n == STAGE
  {
  }

  lemma RootMember(n: string)
    requires Token(n)
    ensures GoodPath("" + ("/" + n)) && (Staged("" + ("/" + n)) ==> "" + ("/" + n) == STAGE)
    ensures Member("", "" + ("/" + n)) == n
  {
    hide Staged, GoodPath, Member, Lower;
    var q := "" + ("/" + n);
    assert q == "/" + n;
    TokenGood(n);
    MemberIs("", n, q);
    if Staged(q) { RootStaged(n); }
  }

  lemma RootName(name: string)
    requires Token(Lower(name))
    ensures var q := Lower("/" + name);
            && q == "" + ("/" + Lower(name)) && GoodPath(q) && Lower(q) == q
            && (Staged(q) ==> q == STAGE)
  {
    hide Token, GoodPath, Staged, Lower;
    assert "/" + name == "" + ("/" + name);
    LowerPath("", name);
    LowerTwice("/" + name);
    assert Lower("") == "";
    RootMember(Lower(name));
  }

  // The first piece of a staged path is the staging folder.
  lemma FirstToken(old': string)
    requires GoodPath(old')
    ensures Tokens(STAGE + old') != [] && "/" + Tokens(STAGE + old')[0] == STAGE
  {
    var s := (STAGE + old')[1..];
    assert s == STAGE[1..] + old';
    SlashAfter(STAGE[1..], old');
  }

  lemma CopyIsStaged(q: string)
    requires GoodPath(q)
    ensures Staged(STAGE + q)
  {
  }

  lemma CopyApart(p: string, q: string)
    ensures p != q ==> STAGE + p != STAGE + q
  {
    if STAGE + p == STAGE + q {
      assert p == (STAGE + p)[|STAGE|..] && q == (STAGE + q)[|STAGE|..];
    }
  }

  lemma CopyApartFromItself(p: string)
    ensures STAGE + p != p
  {
  }

  lemma ParentsStay(c: Card, p: string)
    requires p in c && c[p].File? && ParentsIn(c, STAGE + p)
    ensures ParentsIn(c - {p}, STAGE + p)
  {
  }
}
