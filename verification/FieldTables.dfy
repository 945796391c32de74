/**
 Tables of packed fields: what the compile-time checks on neighbouring fields say about the whole table, and what
 pack_fields() and unpack_fields() do with a table that passes them.
 */
module FieldTables {
  import opened Packing
  import opened Numbers

  /** struct packed_field */
  datatype Field = Field(startbit: nat, endbit: nat, offset: nat, size: nat)

  /** CHECK_PACKED_FIELD_OVERLAP */
  predicate CheckOverlap(fields: seq<Field>, a: nat, b: nat)
    requires a < |fields| && b < |fields| && |fields| >= 2
  {
    var ascending := fields[0].startbit < fields[1].startbit;
    && !(ascending && fields[a].startbit >= fields[b].startbit)
    && !(!ascending && fields[a].startbit <= fields[b].startbit)
    && !(Max(fields[a].endbit, fields[b].endbit) <= Min(fields[a].startbit, fields[b].startbit))
  }

  /** CHECK_PACKED_FIELD */
  predicate CheckField(fields: seq<Field>, i: nat)
    requires i < |fields|
  {
    && WellFormed(fields[i])
    && (i != 0 ==> CheckOverlap(fields, i - 1, i))
  }

  /** The part of CHECK_PACKED_FIELD that looks at one field only. */
  predicate WellFormed(f: Field)
  {
    && !(f.startbit < f.endbit)
    && !(f.size != 1 && f.size != 2 && f.size != 4 && f.size != 8)
    && !(f.startbit - f.endbit >= 8 * f.size)
  }

  /** CHECK_PACKED_FIELDS_SIZE */
  predicate CheckSize(fields: seq<Field>, len: nat)
    requires fields != []
  {
    !(fields[0].startbit >= 8 * len) && !(fields[|fields| - 1].startbit >= 8 * len)
  }

  /** The checks on a whole table. */
  predicate Checked(fields: seq<Field>, len: nat)
  {
    fields != [] && CheckSize(fields, len) && forall i :: 0 <= i < |fields| ==> CheckField(fields, i)
  }

  /** The fields have no bit in common. */
  predicate Apart(f: Field, g: Field)
  {
    f.startbit < g.endbit || g.startbit < f.endbit
  }

  /** In a checked table the order goes on past the neighbours. */
  lemma {:induction false} Ordered(fields: seq<Field>, i: nat, j: nat)
    requires (forall k :: 0 <= k < |fields| ==> CheckField(fields, k)) && i < j < |fields|
    ensures if fields[0].startbit < fields[1].startbit then fields[i].startbit < fields[j].endbit
            else fields[j].startbit < fields[i].endbit
    ensures if fields[0].startbit < fields[1].startbit then fields[i].startbit < fields[j].startbit
            else fields[j].startbit < fields[i].startbit
    decreases j - i
  {
    assert CheckField(fields, j) && CheckField(fields, j - 1) && CheckField(fields, i);
    if i < j - 1 {
      Ordered(fields, i, j - 1);
    }
  }

  /** The checks on neighbours and on the two ends say exactly this about the whole table: every field is inside the
      buffer and fits a member of one of the four sizes, and the fields follow one another without an overlap, either
      all upwards or all downwards. */
  lemma CheckedExact(fields: seq<Field>, len: nat)
    ensures Checked(fields, len) <==>
      && fields != []
      && (forall i :: 0 <= i < |fields| ==>
            && fields[i].endbit <= fields[i].startbit < 8 * len
            && fields[i].size in {1, 2, 4, 8} && fields[i].startbit - fields[i].endbit + 1 <= 8 * fields[i].size)
      && ((forall i, j :: 0 <= i < j < |fields| ==> fields[i].startbit < fields[j].endbit)
          || forall i, j :: 0 <= i < j < |fields| ==> fields[j].startbit < fields[i].endbit)
    ensures Checked(fields, len) ==>
      && (forall i :: 0 <= i < |fields| ==> WellFormed(fields[i]))
      && forall i, j :: 0 <= i < j < |fields| ==> Apart(fields[i], fields[j])
  {
    if Checked(fields, len) {
      forall i, j | 0 <= i < j < |fields|
        ensures Apart(fields[i], fields[j])
        ensures if fields[0].startbit < fields[1].startbit then fields[i].startbit < fields[j].startbit
                else fields[j].startbit < fields[i].startbit
      {
        Ordered(fields, i, j);
      }
      forall i | 0 <= i < |fields|
        ensures WellFormed(fields[i]) && fields[i].startbit < 8 * len
      {
        assert CheckField(fields, i);
        if 0 < i < |fields| - 1 {
          Ordered(fields, 0, i);
          Ordered(fields, i, |fields| - 1);
        }
      }
    }
  }

  // The struct

  /** The value of a member, as ustruct_field_to_u64() reads it on a little-endian machine. */
  function Member(s: seq<Byte>, f: Field): (v: Word)
    requires f.offset + f.size <= |s| && f.size <= 8
    ensures |v| == 64
  {
    seq(64, k requires 0 <= k < 64 => k < 8 * f.size && s[f.offset + k / 8][k % 8])
  }

  /** u64_to_ustruct_field() */
  function WithMember(s: seq<Byte>, f: Field, v: Word): (r: seq<Byte>)
    requires f.offset + f.size <= |s| && f.size <= 8 && |v| == 64
    ensures |r| == |s|
  {
    seq(|s|, x requires 0 <= x < |s| =>
      if f.offset <= x < f.offset + f.size then v[8 * (x - f.offset)..8 * (x - f.offset) + 8] else s[x])
  }

  /** The members of the struct do not overlap and are inside it. */
  ghost predicate Members(fields: seq<Field>, len: nat)
  {
    && (forall i :: 0 <= i < |fields| ==> fields[i].offset + fields[i].size <= len && fields[i].size <= 8)
    && forall i, j :: 0 <= i < j < |fields| ==>
         fields[i].offset + fields[i].size <= fields[j].offset || fields[j].offset + fields[j].size <= fields[i].offset
  }

  lemma MemberSet(s: seq<Byte>, f: Field, v: Word)
    requires f.offset + f.size <= |s| && f.size <= 8 && |v| == 64
    ensures Member(WithMember(s, f, v), f) == Low(v, 8 * f.size)
  {
    var r := WithMember(s, f, v);
    forall k: nat | k < 64
      ensures Member(r, f)[k] == Low(v, 8 * f.size)[k]
    {
      if k < 8 * f.size {
        assert k / 8 < f.size && r[f.offset + k / 8][k % 8] == v[8 * (k / 8) + k % 8];
      }
    }
  }

  lemma MemberKept(s: seq<Byte>, f: Field, v: Word, g: Field)
    requires f.offset + f.size <= |s| && f.size <= 8 && |v| == 64 && g.offset + g.size <= |s| && g.size <= 8
    requires f.offset + f.size <= g.offset || g.offset + g.size <= f.offset
    ensures Member(WithMember(s, f, v), g) == Member(s, g)
  {
  }

  /** The bits of field `f` in the buffer are those of word `v`, cut to the width of the field. */
  ghost predicate InField(buf: seq<Byte>, f: Field, v: Word, q: Quirks)
  {
    && f.endbit <= f.startbit < 8 * |buf| && f.startbit - f.endbit < 64 == |v|
    && Unpacked(buf, f.startbit, f.endbit, q) == Low(v, f.startbit - f.endbit + 1)
  }

  lemma StoredInField(before: seq<Byte>, after: seq<Byte>, f: Field, v: Word, q: Quirks)
    requires |before| == |after| && f.endbit <= f.startbit < 8 * |before|
    requires f.startbit - f.endbit < 64 == |v| && Stored(before, after, v, f.startbit, f.endbit, 0, q)
    ensures InField(after, f, v, q)
  {
    hide Bit;
    forall k: nat | k < 64
      ensures Unpacked(after, f.startbit, f.endbit, q)[k] == Low(v, f.startbit - f.endbit + 1)[k]
    {
      if k <= f.startbit - f.endbit {
        assert Bit(after, f.endbit + k, q) == v[k];
      }
    }
  }

  lemma StoredKeeps(before: seq<Byte>, after: seq<Byte>, f: Field, v: Word, g: Field, w: Word, q: Quirks)
    requires |before| == |after| && f.endbit <= f.startbit < 8 * |before|
    requires f.startbit - f.endbit < 64 == |v| && Stored(before, after, v, f.startbit, f.endbit, 0, q)
    requires Apart(f, g) && InField(before, g, w, q)
    ensures InField(after, g, w, q)
  {
    hide Bit;
    forall k: nat | k < 64
      ensures Unpacked(after, g.startbit, g.endbit, q)[k] == Unpacked(before, g.startbit, g.endbit, q)[k]
    {
      if k <= g.startbit - g.endbit {
        assert Bit(after, g.endbit + k, q) == Bit(before, g.endbit + k, q);
      }
    }
  }

  /** Some field covers logical bit `i`. */
  ghost predicate Covered(fields: seq<Field>, i: nat)
  {
    exists k :: 0 <= k < |fields| && fields[k].endbit <= i <= fields[k].startbit
  }

  /** All octets of all fields have a place in the buffer, as they do in every regular layout. */
  ghost predicate Laid(fields: seq<Field>, len: nat, q: Quirks)
  {
    forall k :: 0 <= k < |fields| ==> Placed(len, fields[k].startbit, fields[k].endbit, q)
  }

  lemma RegularLaid(fields: seq<Field>, len: nat, q: Quirks)
    requires Regular(len, q) && Checked(fields, len)
    ensures Laid(fields, len, q)
  {
    CheckedExact(fields, len);
    forall k | 0 <= k < |fields|
      ensures Placed(len, fields[k].startbit, fields[k].endbit, q)
    {
      RegularPlaced(len, fields[k].startbit, fields[k].endbit, q);
    }
  }

  /** The buffer holds the first `n` members of the struct, and has not changed outside their fields. */
  ghost predicate PackedFields(before: seq<Byte>, after: seq<Byte>, s: seq<Byte>, fields: seq<Field>, n: nat, q: Quirks)
    requires n <= |fields| && Members(fields, |s|)
  {
    && |before| == |after|
    && (forall x: nat :: x < |before| && !Reached(|before|, x, q) ==> after[x] == before[x])
    && (forall k :: 0 <= k < n ==> InField(after, fields[k], Member(s, fields[k]), q))
    && forall i: nat :: i < 8 * |before| && !Covered(fields[..n], i) ==> Bit(after, i, q) == Bit(before, i, q)
  }

  lemma CoveredMore(fields: seq<Field>, n: nat, i: nat)
    requires n < |fields|
    ensures Covered(fields[..n], i) ==> Covered(fields[..n + 1], i)
  {
    if k :| 0 <= k < n && fields[..n][k].endbit <= i <= fields[..n][k].startbit {
      assert fields[..n + 1][k] == fields[..n][k];
    }
  }

  lemma PackedStep(before: seq<Byte>, cur: seq<Byte>, after: seq<Byte>, s: seq<Byte>, fields: seq<Field>, n: nat,
                   q: Quirks)
    requires n < |fields| && Members(fields, |s|) && Checked(fields, |before|)
    requires PackedFields(before, cur, s, fields, n, q) && |after| == |cur|
    requires var f := fields[n]; f.endbit <= f.startbit < 8 * |cur| && f.startbit - f.endbit < 64
    requires Stored(cur, after, Member(s, fields[n]), fields[n].startbit, fields[n].endbit, 0, q)
    ensures PackedFields(before, after, s, fields, n + 1, q)
  {
    hide Bit, Reached, Member, InField, Checked;
    CheckedExact(fields, |before|);
    var f := fields[n];
    StoredInField(cur, after, f, Member(s, f), q);
    forall k | 0 <= k < n
      ensures InField(after, fields[k], Member(s, fields[k]), q)
    {
      assert Apart(fields[k], f);
      StoredKeeps(cur, after, f, Member(s, f), fields[k], Member(s, fields[k]), q);
    }
    forall i: nat | i < 8 * |before| && !Covered(fields[..n + 1], i)
      ensures Bit(after, i, q) == Bit(before, i, q)
    {
      assert fields[..n + 1][n] == f && !(f.endbit <= i <= f.startbit);
      CoveredMore(fields, n, i);
    }
  }

  /** pack_fields() */
  method PackFields(buf: array<Byte>, ustruct: array<Byte>, fields: seq<Field>, q: Quirks)
    requires buf != ustruct && Checked(fields, buf.Length)
    requires Laid(fields, buf.Length, q) && Members(fields, ustruct.Length)
    modifies buf
    ensures PackedFields(old(buf[..]), buf[..], ustruct[..], fields, |fields|, q)
    ensures forall i: nat ::
      i < 8 * buf.Length && (forall k :: 0 <= k < |fields| ==> !(fields[k].endbit <= i <= fields[k].startbit)) ==>
        Bit(buf[..], i, q) == Bit(old(buf[..]), i, q)
  {
    hide Bit, Reached, Member, Checked, Stored, PackedFields, Members;
    CheckedExact(fields, buf.Length);
    PackedStart(buf[..], ustruct[..], fields, q);
    for i := 0 to |fields|
      invariant PackedFields(old(buf[..]), buf[..], ustruct[..], fields, i, q)
    {
      var f := fields[i];
      MembersAt(fields, ustruct.Length, i);
      ghost var cur := buf[..];
      var v := Member(ustruct[..], f);
      PackBits(buf, v, f.startbit, f.endbit, q);
      PackedStep(old(buf[..]), cur, buf[..], ustruct[..], fields, i, q);
    }
    PackedOutside(old(buf[..]), buf[..], ustruct[..], fields, q);
  }

  lemma PackedOutside(before: seq<Byte>, after: seq<Byte>, s: seq<Byte>, fields: seq<Field>, q: Quirks)
    requires Members(fields, |s|) && PackedFields(before, after, s, fields, |fields|, q)
    ensures forall i: nat ::
      i < 8 * |after| && (forall k :: 0 <= k < |fields| ==> !(fields[k].endbit <= i <= fields[k].startbit)) ==>
        Bit(after, i, q) == Bit(before, i, q)
  {
    hide Bit, Reached, InField;
    assert fields[..|fields|] == fields;
  }

  lemma PackedStart(buf: seq<Byte>, s: seq<Byte>, fields: seq<Field>, q: Quirks)
    requires Members(fields, |s|)
    ensures PackedFields(buf, buf, s, fields, 0, q)
  {
  }

  lemma MembersAt(fields: seq<Field>, len: nat, i: nat)
    requires Members(fields, len) && i < |fields|
    ensures fields[i].offset + fields[i].size <= len && fields[i].size <= 8
  {
  }

  /** The first `n` members hold what is in the buffer, and the rest of the struct is as it was. */
  ghost predicate UnpackedFields(before: seq<Byte>, after: seq<Byte>, buf: seq<Byte>, fields: seq<Field>, n: nat,
                                 q: Quirks)
    requires n <= |fields| && Members(fields, |before|)
    requires Checked(fields, |buf|)
  {
    CheckedExact(fields, |buf|);
    && |before| == |after|
    && (forall k :: 0 <= k < n ==> Member(after, fields[k]) == Unpacked(buf, fields[k].startbit, fields[k].endbit, q))
    && forall x: nat ::
         x < |before| && (forall k :: 0 <= k < n ==> !(fields[k].offset <= x < fields[k].offset + fields[k].size))
         ==> after[x] == before[x]
  }

  lemma UnpackedStep(before: seq<Byte>, cur: seq<Byte>, buf: seq<Byte>, fields: seq<Field>, n: nat, q: Quirks)
    requires n < |fields| && Members(fields, |before|) && Checked(fields, |buf|)
    requires UnpackedFields(before, cur, buf, fields, n, q)
    ensures fields[n].offset + fields[n].size <= |cur| && fields[n].size <= 8
    ensures fields[n].endbit <= fields[n].startbit < 8 * |buf| && fields[n].startbit - fields[n].endbit < 64
    ensures UnpackedFields(before, WithMember(cur, fields[n], Unpacked(buf, fields[n].startbit, fields[n].endbit, q)),
                           buf, fields, n + 1, q)
  {
    hide Bit, Reached, Member, WithMember, Checked;
    CheckedExact(fields, |buf|);
    var f := fields[n];
    var v := Unpacked(buf, f.startbit, f.endbit, q);
    var after := WithMember(cur, f, v);
    MemberSet(cur, f, v);
    assert Low(v, 8 * f.size) == v;
    forall k | 0 <= k < n
      ensures Member(after, fields[k]) == Member(cur, fields[k])
    {
      MemberKept(cur, f, v, fields[k]);
    }
    OtherBytes(cur, f, v);
  }

  lemma OtherBytes(s: seq<Byte>, f: Field, v: Word)
    requires f.offset + f.size <= |s| && f.size <= 8 && |v| == 64
    ensures forall x: nat :: x < |s| && !(f.offset <= x < f.offset + f.size) ==> WithMember(s, f, v)[x] == s[x]
  {
  }

  /** unpack_fields() */
  method UnpackFields(buf: array<Byte>, ustruct: array<Byte>, fields: seq<Field>, q: Quirks)
    requires buf != ustruct && Checked(fields, buf.Length)
    requires Laid(fields, buf.Length, q) && Members(fields, ustruct.Length)
    modifies ustruct
    ensures UnpackedFields(old(ustruct[..]), ustruct[..], buf[..], fields, |fields|, q)
    ensures forall x ::
      0 <= x < ustruct.Length &&
      (forall k :: 0 <= k < |fields| ==> !(fields[k].offset <= x < fields[k].offset + fields[k].size)) ==>
        ustruct[x] == old(ustruct[x])
  {
    hide Bit, Reached, Member, Checked, UnpackedFields, Members;
    CheckedExact(fields, buf.Length);
    UnpackedStart(ustruct[..], buf[..], fields, q);
    for i := 0 to |fields|
      invariant UnpackedFields(old(ustruct[..]), ustruct[..], buf[..], fields, i, q)
    {
      UnpackedStep(old(ustruct[..]), ustruct[..], buf[..], fields, i, q);
      var f := fields[i];
      var v := UnpackBits(buf, f.startbit, f.endbit, q);
      SetMember(ustruct, f, v);
    }
    UnpackedOutside(old(ustruct[..]), ustruct[..], buf[..], fields, q);
  }

  lemma UnpackedOutside(before: seq<Byte>, after: seq<Byte>, buf: seq<Byte>, fields: seq<Field>, q: Quirks)
    requires Members(fields, |before|) && Checked(fields, |buf|)
    requires UnpackedFields(before, after, buf, fields, |fields|, q)
    ensures |after| == |before|
    ensures forall x ::
      0 <= x < |after| &&
      (forall k :: 0 <= k < |fields| ==> !(fields[k].offset <= x < fields[k].offset + fields[k].size)) ==>
        after[x] == before[x]
  {
    hide Member, Unpacked, Checked;
  }

  lemma UnpackedStart(s: seq<Byte>, buf: seq<Byte>, fields: seq<Field>, q: Quirks)
    requires Members(fields, |s|) && Checked(fields, |buf|)
    ensures UnpackedFields(s, s, buf, fields, 0, q)
  {
  }

  /** u64_to_ustruct_field() */
  method SetMember(ustruct: array<Byte>, f: Field, v: Word)
    requires f.offset + f.size <= ustruct.Length && f.size <= 8 && |v| == 64
    modifies ustruct
    ensures ustruct[..] == WithMember(old(ustruct[..]), f, v)
  {
    forall x | f.offset <= x < f.offset + f.size {
      ustruct[x] := v[8 * (x - f.offset)..8 * (x - f.offset) + 8];
    }
  }

  /** A struct member whose value fits its field. */
  ghost predicate Fits(s: seq<Byte>, f: Field)
    requires f.offset + f.size <= |s| && f.size <= 8
  {
    forall k: nat :: f.startbit - f.endbit < k < 64 ==> !Member(s, f)[k]
  }

  lemma FitsLow(s: seq<Byte>, f: Field)
    requires f.offset + f.size <= |s| && f.size <= 8 && f.endbit <= f.startbit
    ensures Fits(s, f) ==> Low(Member(s, f), f.startbit - f.endbit + 1) == Member(s, f)
  {
    hide Member;
  }

  /** Unpacking a packed struct into any other one restores every member whose value fits, in either order of the
      table. */
  lemma FieldsRoundTrip(buf: seq<Byte>, packed: seq<Byte>, s: seq<Byte>, other: seq<Byte>, restored: seq<Byte>,
                        fields: seq<Field>, q: Quirks, k: nat)
    requires Members(fields, |s|) && |other| == |s| && k < |fields| && |packed| == |buf|
    requires Checked(fields, |buf|)
    requires PackedFields(buf, packed, s, fields, |fields|, q)
    requires UnpackedFields(other, restored, packed, fields, |fields|, q)
    ensures |restored| == |s| && fields[k].offset + fields[k].size <= |s| && fields[k].size <= 8
    ensures fields[k].endbit <= fields[k].startbit
    ensures ValueOf(Member(restored, fields[k])) ==
            ValueOf(Member(s, fields[k])) % Pow2(fields[k].startbit - fields[k].endbit + 1)
    ensures Fits(s, fields[k]) ==> Member(restored, fields[k]) == Member(s, fields[k])
  {
    hide Bit, Reached, Member, Checked, Fits;
    CheckedExact(fields, |buf|);
    var f := fields[k];
    assert InField(packed, f, Member(s, f), q);
    LowBits(Member(s, f), f.startbit - f.endbit + 1);
    FitsLow(s, f);
  }

  /** A member is the number that its bytes list from the least significant one on. */
  lemma MemberNumber(s: seq<Byte>, f: Field)
    requires f.offset + f.size <= |s| && f.size <= 8
    ensures ValueOf(Member(s, f)) == LittleEndian(s[f.offset..f.offset + f.size])
  {
    WordLittle(s[f.offset..f.offset + f.size], Member(s, f));
  }

  /** Packing: the bits of each field, cut out of the number that the buffer lists, are its member modulo 2^width. */
  lemma PackedNumber(before: seq<Byte>, after: seq<Byte>, s: seq<Byte>, fields: seq<Field>, q: Quirks, k: nat)
    requires Members(fields, |s|) && PackedFields(before, after, s, fields, |fields|, q) && k < |fields| && !q.msbRight
    ensures var f := fields[k];
      && f.offset + f.size <= |s| && f.endbit <= f.startbit
      && var member := LittleEndian(s[f.offset..f.offset + f.size]);
         && (!q.littleEndian && !q.lsw32First ==>
               (BigEndian(after) / Pow2(f.endbit)) % Pow2(f.startbit - f.endbit + 1) ==
               member % Pow2(f.startbit - f.endbit + 1))
         && (q.littleEndian && q.lsw32First ==>
               (LittleEndian(after) / Pow2(f.endbit)) % Pow2(f.startbit - f.endbit + 1) ==
               member % Pow2(f.startbit - f.endbit + 1))
  {
    hide Member, Unpacked, Bit, Reached;
    var f := fields[k];
    assert InField(after, f, Member(s, f), q);
    FieldNumber(after, f.startbit, f.endbit, q);
    LowBits(Member(s, f), f.startbit - f.endbit + 1);
    MemberNumber(s, f);
  }

  /** Unpacking: each member is the bits of its field, cut out of the number that the buffer lists. */
  lemma UnpackedNumber(before: seq<Byte>, after: seq<Byte>, buf: seq<Byte>, fields: seq<Field>, q: Quirks, k: nat)
    requires Members(fields, |before|) && Checked(fields, |buf|) && k < |fields| && !q.msbRight
    requires UnpackedFields(before, after, buf, fields, |fields|, q)
    ensures var f := fields[k];
      && |after| == |before| && f.offset + f.size <= |after| && f.endbit <= f.startbit
      && var member := LittleEndian(after[f.offset..f.offset + f.size]);
         && (!q.littleEndian && !q.lsw32First ==>
               member == (BigEndian(buf) / Pow2(f.endbit)) % Pow2(f.startbit - f.endbit + 1))
         && (q.littleEndian && q.lsw32First ==>
               member == (LittleEndian(buf) / Pow2(f.endbit)) % Pow2(f.startbit - f.endbit + 1))
  {
    hide Member, Unpacked, Bit, Checked;
    CheckedExact(fields, |buf|);
    var f := fields[k];
    FieldNumber(buf, f.startbit, f.endbit, q);
    MemberNumber(after, f);
  }

  /** A logical bit inside a field whose word is the one that was unpacked from `buf`. */
  lemma FieldBit(buf: seq<Byte>, packed: seq<Byte>, f: Field, v: Word, q: Quirks, i: nat)
    requires |packed| == |buf| && f.endbit <= i <= f.startbit < 8 * |buf| && f.startbit - f.endbit < 64
    requires InField(packed, f, v, q) && v == Unpacked(buf, f.startbit, f.endbit, q)
    ensures Bit(packed, i, q) == Bit(buf, i, q)
  {
    hide Bit;
    var k := i - f.endbit;
    assert Unpacked(packed, f.startbit, f.endbit, q)[k] == Bit(packed, f.endbit + k, q);
    assert Unpacked(buf, f.startbit, f.endbit, q)[k] == Bit(buf, f.endbit + k, q);
    assert Low(v, f.startbit - f.endbit + 1)[k] == v[k];
  }

  /** Packing what has been unpacked from a buffer leaves that buffer as it was. */
  lemma FieldsRepack(buf: seq<Byte>, before: seq<Byte>, s: seq<Byte>, packed: seq<Byte>, fields: seq<Field>, q: Quirks)
    requires Members(fields, |s|) && |before| == |s| && Checked(fields, |buf|)
    requires UnpackedFields(before, s, buf, fields, |fields|, q)
    requires PackedFields(buf, packed, s, fields, |fields|, q)
    ensures packed == buf
  {
    hide Bit, Reached, Member, Checked, InField;
    CheckedExact(fields, |buf|);
    assert fields[..|fields|] == fields;
    forall i: nat | i < 8 * |buf|
      ensures Bit(packed, i, q) == Bit(buf, i, q)
    {
      if k :| 0 <= k < |fields| && fields[k].endbit <= i <= fields[k].startbit {
        FieldBit(buf, packed, fields[k], Member(s, fields[k]), q, i);
      }
    }
    forall x: nat | x < |buf|
      ensures packed[x] == buf[x]
    {
      if Reached(|buf|, x, q) {
        BitsDetermine(packed, buf, q, x);
      }
    }
  }
}
