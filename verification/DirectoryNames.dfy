/** How the file numbers of the protocol stand for the names in the directory. */
module DirectoryNames {
  import opened Octets
  import opened Digits
  import opened Codec
  import opened Spool
  import Forwarding
  import opened SpoolNames

  /** The names in the directory, other than those which begin with a dot, are those of the
      spoolfiles, printed with one width. */
  ghost predicate NamesOf(disk: Disk, names: seq<string>, width: nat) {
    && (forall n | n in disk :: PrintName(n, width) in names)
    && (forall s | s in names && IsVisible(s) :: exists n :: n in disk && s == PrintName(n, width))
  }

  /** No two spoolfiles have the same name. */
  lemma NamesDiffer(m: nat, n: nat, width: nat)
    requires PrintName(m, width) == PrintName(n, width)
    ensures m == n
  {
    hide PrintName, ValueOf;
    PrintedValue(m, width);
    PrintedValue(n, width);
  }

  lemma NameVisible(n: nat, width: nat)
    ensures var s := PrintName(n, width); IsVisible(s) && IsName(s) && ValueOf(s) == n
  {
    hide PrintName, ValueOf;
    PrintedValue(n, width);
    assert PrintName(n, width)[0] in PrintName(n, width);
  }

  /** Scanning the names gives the first file number, and the next which is free. */
  lemma ScanOfNames(disk: Disk, names: seq<string>, width: nat, scan: Scan)
    requires NamesOf(disk, names, width) && Describes(scan, names)
    ensures Forwarding.Scan(disk) == (scan.first, scan.next)
    ensures disk == map[] ==> scan.first == 0 && scan.next == 0
    ensures forall n | n in disk :: scan.first <= n < scan.next
    ensures disk != map[] ==> scan.first in disk && scan.next - 1 in disk
  {
    hide PrintName, ValueOf, IsVisible;
    forall n | n in disk
      ensures PrintName(n, width) in names && IsVisible(PrintName(n, width)) && scan.first <= n < scan.next
    {
      NameVisible(n, width);
    }
    if disk != map[] {
      Forwarding.NonEmpty(disk);
      var k :| k in disk;
      assert AnyVisible(names);
      var s :| s in names && IsVisible(s) && ValueOf(s) == scan.first;
      var m :| m in disk && s == PrintName(m, width);
      NameVisible(m, width);
      var t :| t in names && IsVisible(t) && ValueOf(t) == scan.next - 1;
      var n :| n in disk && t == PrintName(n, width);
      NameVisible(n, width);
    }
  }

  /** The writer's next file has a name which is not in the directory, whatever the width found. */
  lemma NextIsNew(disk: Disk, names: seq<string>, width: nat, scan: Scan)
    requires NamesOf(disk, names, width) && Describes(scan, names)
    ensures PrintName(Forwarding.Scan(disk).1, scan.width) !in names
  {
    hide PrintName, ValueOf, IsVisible;
    ScanOfNames(disk, names, width, scan);
    NameVisible(scan.next, scan.width);
  }

  /** Whoever scans the directory prints, from then on, the names that everyone else does; a writer
      which finds no spoolfiles uses six digits. */
  lemma WidthAgrees(disk: Disk, names: seq<string>, width: nat, scan: Scan, n: nat)
    requires NamesOf(disk, names, width) && Describes(scan, names) && scan.first <= n
    requires disk != map[] && forall k | k in disk :: k < 0xFFFF_FFFF_FFFF_FFFF
    ensures PrintName(n, scan.width) == PrintName(n, width)
  {
    hide PrintName, ValueOf, IsVisible;
    Forwarding.NonEmpty(disk);
    var k :| k in disk;
    NameVisible(k, width);
    assert AnyVisible(names);
    PrintedMade(disk.Keys, names, width);
    WidthRegenerates(scan, names, width, n);
  }

  /** So a file made under the next number leaves all of the names printed with one width. */
  lemma FileAdded(disk: Disk, names: seq<string>, width: nat, scan: Scan, n: nat, content: seq<Record>)
    requires NamesOf(disk, names, width) && Describes(scan, names) && scan.next <= n
    requires forall k | k in disk :: k < 0xFFFF_FFFF_FFFF_FFFF
    ensures var (w, made) := if scan.width == 0 then (6, 6) else (scan.width, width);
            NamesOf(disk[n := content], names + [PrintName(n, w)], made)
  {
    hide PrintName, ValueOf, IsVisible;
    ScanOfNames(disk, names, width, scan);
    var w := if scan.width == 0 then 6 else scan.width;
    if disk != map[] {
      Forwarding.NonEmpty(disk);
      WidthAgrees(disk, names, width, scan, n);
    }
    assert PrintName(n, w) in names + [PrintName(n, w)];
    assert forall s | s in names :: s in names + [PrintName(n, w)];
    assert forall s | s in names + [PrintName(n, w)] :: s in names || s == PrintName(n, w);
  }

  /** Deleting a spoolfile removes its name and no other. */
  lemma FileRemoved(disk: Disk, names: seq<string>, others: seq<string>, width: nat, n: nat)
    requires NamesOf(disk, names, width)
    requires forall s :: s in others <==> s in names && s != PrintName(n, width)
    ensures NamesOf(disk - {n}, others, width)
  {
    hide PrintName, IsVisible;
    forall k | k in disk - {n}
      ensures PrintName(k, width) in others
    {
      if PrintName(k, width) == PrintName(n, width) {
        NamesDiffer(k, n, width);
      }
    }
  }
}
