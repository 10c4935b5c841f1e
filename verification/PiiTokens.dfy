/** Placeholders and the per-request session map (src/policy/guardrails.c:2028-2092,
    src/policy/guardrails.h:147-210). */
module PiiTokens {
  import opened Options
  import opened Decimal

  datatype PiiType = Phone | IdCard | BankCard | Email | ApiKey | IpAddress

  datatype PiiEntry = PiiEntry(placeholder: string, original: string, typ: PiiType)

  const MAX_ENTRIES := 64
  const ORIGINAL_SIZE := 128

  predicate IsWordChar(c: char) {
    'a' <= c <= 'z' || 'A' <= c <= 'Z' || IsDigit(c) || c == '_'
  }

  function Tag(t: PiiType): string {
    match t
    case Phone => "PHONE"
    case IdCard => "ID_CARD"
    case BankCard => "BANK_CARD"
    case Email => "EMAIL"
    case ApiKey => "API_KEY"
    case IpAddress => "IP"
  }

  function Placeholder(t: PiiType, n: nat): string {
    "[" + Tag(t) + "_" + Digits(n) + "]"
  }

  /** strncpy into original[128]. */
  function Stored(original: string): string {
    if |original| < ORIGINAL_SIZE then original else original[..ORIGINAL_SIZE - 1]
  }

  // ---------- The map as a value ----------

  function CountType(entries: seq<PiiEntry>, t: PiiType): nat {
    if entries == [] then 0
    else CountType(entries[..|entries| - 1], t) + if entries[|entries| - 1].typ == t then 1 else 0
  }

  function FindOriginal(entries: seq<PiiEntry>, original: string): (r: Option<string>)
    ensures r.Some? ==> exists e :: e in entries && e.original == original && e.placeholder == r.value
    ensures r.None? ==> forall e :: e in entries ==> e.original != original
  {
    if entries == [] then None
    else if entries[0].original == original then Some(entries[0].placeholder)
    else FindOriginal(entries[1..], original)
  }

  function FindPlaceholder(entries: seq<PiiEntry>, token: string): (r: Option<string>)
    ensures r.Some? ==> exists e :: e in entries && e.placeholder == token && e.original == r.value
    ensures r.None? ==> forall e :: e in entries ==> e.placeholder != token
  {
    if entries == [] then None
    else if entries[0].placeholder == token then Some(entries[0].original)
    else FindPlaceholder(entries[1..], token)
  }

  function NewEntry(entries: seq<PiiEntry>, t: PiiType, original: string): PiiEntry {
    PiiEntry(Placeholder(t, CountType(entries, t) + 1), Stored(original), t)
  }

  /** Does a request for a placeholder find or make one? */
  predicate HasRoom(entries: seq<PiiEntry>, original: string) {
    original != "" && (FindOriginal(entries, original).Some? || |entries| < MAX_ENTRIES)
  }

  function AfterCreate(entries: seq<PiiEntry>, t: PiiType, original: string): seq<PiiEntry> {
    if original == "" || FindOriginal(entries, original).Some? || |entries| >= MAX_ENTRIES then entries
    else entries + [NewEntry(entries, t, original)]
  }

  /** Every placeholder is numbered within its type. */
  ghost predicate Numbered(entries: seq<PiiEntry>) {
    && |entries| <= MAX_ENTRIES
    && (forall i {:trigger entries[i].placeholder} :: 0 <= i < |entries| ==>
          entries[i].placeholder == Placeholder(entries[i].typ, CountType(entries[..i], entries[i].typ) + 1))
  }

  /** ... and no original occurs twice. */
  ghost predicate MapOk(entries: seq<PiiEntry>) {
    && Numbered(entries)
    && (forall i, j :: 0 <= i < j < |entries| ==> entries[i].original != entries[j].original)
  }

  lemma {:induction false} CountTypeMonotone(entries: seq<PiiEntry>, i: nat, j: nat, t: PiiType)
    requires i <= j <= |entries|
    ensures CountType(entries[..i], t) <= CountType(entries[..j], t) <= j
    decreases j
  {
    if i < j {
      CountTypeMonotone(entries, i, j - 1, t);
      assert entries[..j][..j - 1] == entries[..j - 1];
    } else if j > 0 {
      CountTypeMonotone(entries, j - 1, j - 1, t);
      assert entries[..j][..j - 1] == entries[..j - 1];
    }
  }

  lemma PlaceholderShape(t: PiiType, n: nat)
    ensures var p := Placeholder(t, n); var k := |Tag(t)| + 2;
      && p[0] == '[' && p[|p| - 1] == ']' && |p| == k + |Digits(n)| + 1
      && p[1] == Tag(t)[0] && p[2] == Tag(t)[1]
      && p[k..|p| - 1] == Digits(n)
      && (forall i :: 1 <= i < |p| - 1 ==> IsWordChar(p[i]))
      && (forall i :: 0 <= i < k ==> !IsDigit(p[i]))
  {
    DigitsAreDigits(n);
    var p := Placeholder(t, n);
    forall i | 1 <= i < |p| - 1 ensures IsWordChar(p[i]) {
      if i <= |Tag(t)| { assert p[i] == Tag(t)[i - 1]; TagChars(t, i - 1); }
    }
    forall i | 0 <= i < |Tag(t)| + 2 ensures !IsDigit(p[i]) {
      if 1 <= i <= |Tag(t)| { assert p[i] == Tag(t)[i - 1]; TagChars(t, i - 1); }
    }
  }

  lemma TagChars(t: PiiType, i: nat)
    requires i < |Tag(t)|
    ensures IsWordChar(Tag(t)[i]) && !IsDigit(Tag(t)[i])
  {
    match t
    case Phone =>
    case IdCard =>
    case BankCard =>
    case Email =>
    case ApiKey =>
    case IpAddress =>
  }

  /** Type and number can be read back from a placeholder. */
  lemma PlaceholderInjective(t: PiiType, m: nat, u: PiiType, n: nat)
    requires Placeholder(t, m) == Placeholder(u, n)
    ensures t == u && m == n
  {
    PlaceholderShape(t, m);
    PlaceholderShape(u, n);
    assert t == u by {
      assert Tag(t)[0] == Tag(u)[0] && Tag(t)[1] == Tag(u)[1];
    }
    DigitsInjective(m, n);
  }

  lemma EntryNumber(entries: seq<PiiEntry>, i: nat)
    requires Numbered(entries) && i < |entries|
    ensures entries[i].placeholder == Placeholder(entries[i].typ, CountType(entries[..i], entries[i].typ) + 1)
  {
    hide Placeholder, CountType;
  }

  /** The placeholders of a session are pairwise distinct. */
  lemma PlaceholdersDistinct(entries: seq<PiiEntry>, i: nat, j: nat)
    requires Numbered(entries) && i < j < |entries|
    ensures entries[i].placeholder != entries[j].placeholder
  {
    hide Placeholder, CountType, Numbered;
    EntryNumber(entries, i);
    EntryNumber(entries, j);
    if entries[i].placeholder == entries[j].placeholder {
      var t := entries[i].typ;
      PlaceholderInjective(t, CountType(entries[..i], t) + 1,
                           entries[j].typ, CountType(entries[..j], entries[j].typ) + 1);
      CountTypeUpTo(entries, t, i);
      CountTypeMonotone(entries, i + 1, j, t);
    }
  }

  /** Looking a session's placeholder up gives back its original. */
  lemma {:induction false} LookupIssued(entries: seq<PiiEntry>, e: PiiEntry)
    requires Numbered(entries) && e in entries
    ensures FindPlaceholder(entries, e.placeholder) == Some(e.original)
  {
    hide Numbered;
    var r := FindPlaceholder(entries, e.placeholder);
    var f :| f in entries && f.placeholder == e.placeholder && f.original == r.value;
    var i :| 0 <= i < |entries| && entries[i] == e;
    var j :| 0 <= j < |entries| && entries[j] == f;
    if i < j { PlaceholdersDistinct(entries, i, j); }
    if j < i { PlaceholdersDistinct(entries, j, i); }
  }

  /** Creating keeps the map well formed, as long as originals fit their field. */
  lemma CreateKeepsMapOk(entries: seq<PiiEntry>, t: PiiType, original: string)
    requires MapOk(entries) && |original| < ORIGINAL_SIZE
    ensures MapOk(AfterCreate(entries, t, original))
    ensures entries <= AfterCreate(entries, t, original)
  {
    hide Placeholder, CountType;
    var after := AfterCreate(entries, t, original);
    if after != entries {
      var n := |entries|;
      hide FindOriginal;
      assert forall e :: e in entries ==> e.original != original;
      assert after[..n] == entries;
      forall i | 0 <= i < |after|
        ensures after[i].placeholder == Placeholder(after[i].typ, CountType(after[..i], after[i].typ) + 1)
      {
        assert i < n ==> after[..i] == entries[..i] && after[i] == entries[i];
      }
    }
  }

  /** A successful request returns a placeholder of the map that stands for the original. */
  lemma CreatedIsIssued(entries: seq<PiiEntry>, t: PiiType, original: string)
    requires HasRoom(entries, original) && |original| < ORIGINAL_SIZE
    ensures exists e :: e in AfterCreate(entries, t, original) && e.original == original
                        && e.placeholder == Created(entries, t, original)
  {
    hide Placeholder, CountType;
    var after := AfterCreate(entries, t, original);
    if FindOriginal(entries, original).None? {
      assert after[|entries|] == NewEntry(entries, t, original);
    }
  }

  /** The placeholder a successful request returns. */
  function Created(entries: seq<PiiEntry>, t: PiiType, original: string): string {
    var known := FindOriginal(entries, original);
    if known.Some? then known.value else NewEntry(entries, t, original).placeholder
  }

  lemma FindOriginalFrom(es: seq<PiiEntry>, original: string, i: nat)
    requires i <= |es|
    ensures i == |es| ==> FindOriginal(es[i..], original) == None
    ensures i < |es| ==>
      FindOriginal(es[i..], original)
      == (if es[i].original == original then Some(es[i].placeholder) else FindOriginal(es[i + 1..], original))
  {
    if i < |es| { assert es[i..][1..] == es[i + 1..]; }
  }

  lemma FindPlaceholderFrom(es: seq<PiiEntry>, token: string, i: nat)
    requires i <= |es|
    ensures i == |es| ==> FindPlaceholder(es[i..], token) == None
    ensures i < |es| ==>
      FindPlaceholder(es[i..], token)
      == (if es[i].placeholder == token then Some(es[i].original) else FindPlaceholder(es[i + 1..], token))
  {
    if i < |es| { assert es[i..][1..] == es[i + 1..]; }
  }

  lemma CountTypeUpTo(es: seq<PiiEntry>, t: PiiType, i: nat)
    requires i < |es|
    ensures CountType(es[..i + 1], t) == CountType(es[..i], t) + if es[i].typ == t then 1 else 0
  {
    assert es[..i + 1][..i] == es[..i];
  }

  // ---------- The map as an object ----------

  class PiiSessionMap {
    var entries: array<PiiEntry>
    var count: nat

    ghost predicate Valid()
      reads this, entries
    {
      entries.Length == MAX_ENTRIES && count <= MAX_ENTRIES
    }

    ghost function Contents(): seq<PiiEntry>
      requires Valid()
      reads this, entries
    {
      entries[..count]
    }

    constructor ()
      ensures Valid() && Contents() == [] && fresh(entries)
    {
      entries := new PiiEntry[MAX_ENTRIES](_ => PiiEntry("", "", Phone));
      count := 0;
    }

    /** pii_session_map_get_or_create; None is the NULL return. */
    method GetOrCreate(t: PiiType, original: string) returns (token: Option<string>)
      requires Valid()
      modifies this`count, entries
      ensures Valid() && Contents() == AfterCreate(old(Contents()), t, original)
      ensures token.Some? <==> HasRoom(old(Contents()), original)
      ensures token.Some? ==> token.value == Created(old(Contents()), t, original)
    {
      hide Placeholder, FindOriginal, CountType;
      if original == "" {
        return None;
      }
      ghost var es := Contents();
      assert es[0..] == es;
      for i := 0 to count
        invariant Valid() && Contents() == es
        invariant FindOriginal(es, original) == FindOriginal(es[i..], original)
      {
        FindOriginalFrom(es, original, i);
        if entries[i].original == original {
          return Some(entries[i].placeholder);
        }
      }
      FindOriginalFrom(es, original, count);
      if count >= MAX_ENTRIES {
        return None;
      }
      var sameType := CountOfType(t);
      entries[count] := PiiEntry(Placeholder(t, sameType + 1), Stored(original), t);
      count := count + 1;
      return Some(entries[count - 1].placeholder);
    }

    /** The counting loop of pii_session_map_get_or_create. */
    method CountOfType(t: PiiType) returns (n: nat)
      requires Valid()
      ensures n == CountType(Contents(), t)
    {
      ghost var es := Contents();
      n := 0;
      for i := 0 to count
        invariant n == CountType(es[..i], t)
      {
        CountTypeUpTo(es, t, i);
        if entries[i].typ == t {
          n := n + 1;
        }
      }
      assert es[..count] == es;
    }

    /** pii_session_map_lookup_token. */
    method LookupToken(token: string) returns (original: Option<string>)
      requires Valid()
      ensures token == "" ==> original == None
      ensures token != "" ==> original == FindPlaceholder(Contents(), token)
    {
      hide FindPlaceholder;
      if token == "" {
        return None;
      }
      ghost var es := Contents();
      assert es[0..] == es;
      for i := 0 to count
        invariant FindPlaceholder(es, token) == FindPlaceholder(es[i..], token)
      {
        FindPlaceholderFrom(es, token, i);
        if entries[i].placeholder == token {
          return Some(entries[i].original);
        }
      }
      FindPlaceholderFrom(es, token, count);
      return None;
    }
  }
}
