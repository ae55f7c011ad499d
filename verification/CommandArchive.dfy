/**
 The command archive (K2HCommandArchive): the byte layout of one command, and the walk over a file of them.
 */
module CommandArchive {
  import opened Layout
  import opened SizeCodec

  const SCOM_SET_ALL := 0
  const SCOM_REPLACE_VAL := 1
  const SCOM_REPLACE_SKEY := 2
  const SCOM_DEL_KEY := 3
  const SCOM_OW_VAL := 4
  const SCOM_REPLACE_ATTRS := 5
  const SCOM_RENAME := 6
  const SCOM_TYPE_MAX := 6

  const SCOM_COMSTR_LENGTH := 16

  /** sizeof(SCOM): the command string and eleven fields. */
  const SCOM_SIZE := 104

  /** A command with all the data it may carry. */
  datatype Command = Command(comType: nat, key: Bytes, val: Bytes, skey: Bytes, attrs: Bytes, exdata: Bytes)

  /** The fields behind the command string, in their order. */
  datatype Scom = Scom(comType: nat, keyLength: nat, valLength: nat, skeyLength: nat, attrLength: nat,
                       exdataLength: nat, keyPos: nat, valPos: nat, skeyPos: nat, attrsPos: nat, exdataPos: nat)

  /** The command string, with zeros behind it: a newline, K2H_ and the name. */
  function CommandString(comType: nat): (r: Bytes)
    ensures |r| == SCOM_COMSTR_LENGTH
  {
    match comType
    case 0 => [10, 75, 50, 72, 95, 83, 69, 84, 95, 65, 76, 76, 0, 0, 0, 0]          // SET_ALL
    case 1 => [10, 75, 50, 72, 95, 82, 69, 80, 95, 86, 65, 76, 0, 0, 0, 0]          // REP_VAL
    case 2 => [10, 75, 50, 72, 95, 82, 69, 80, 95, 83, 75, 69, 89, 0, 0, 0]         // REP_SKEY
    case 3 => [10, 75, 50, 72, 95, 68, 69, 76, 95, 75, 69, 89, 0, 0, 0, 0]          // DEL_KEY
    case 4 => [10, 75, 50, 72, 95, 79, 87, 95, 86, 65, 76, 0, 0, 0, 0, 0]           // OW_VAL
    case 5 => [10, 75, 50, 72, 95, 82, 69, 80, 95, 65, 84, 84, 82, 83, 0, 0]        // REP_ATTRS
    case 6 => [10, 75, 50, 72, 95, 82, 69, 78, 95, 75, 69, 89, 0, 0, 0, 0]          // REN_KEY
    case _ => [0, 0, 0, 0, 0, 0, 0, 0, 0, 0, 0, 0, 0, 0, 0, 0]
  }

  function FieldsOf(s: Scom): seq<nat>
  {
    [s.comType, s.keyLength, s.valLength, s.skeyLength, s.attrLength, s.exdataLength, s.keyPos, s.valPos, s.skeyPos,
      s.attrsPos, s.exdataPos]
  }

  /** Numbers of eight bytes each, one after the other. */
  function Sizes(fields: seq<nat>): (r: Bytes)
    ensures |r| == SIZE_T * |fields|
  {
    if fields == [] then [] else Le(fields[0], SIZE_T) + Sizes(fields[1..])
  }

  function HeaderBytes(s: Scom): (r: Bytes)
    ensures |r| == SCOM_SIZE
  {
    CommandString(s.comType) + Sizes(FieldsOf(s))
  }

  function TotalLength(s: Scom): nat
  {
    SCOM_SIZE + s.keyLength + s.valLength + s.skeyLength + s.attrLength + s.exdataLength
  }

  /** The data that a command of its type carries; the rest is dropped. */
  function Carried(c: Command): Command
  {
    match c.comType
    case 0 => c.(exdata := [])
    case 1 => Command(1, c.key, c.val, [], [], [])
    case 2 => Command(2, c.key, [], c.skey, [], [])
    case 3 => Command(3, c.key, [], [], [], [])
    case 4 => Command(4, c.key, c.val, [], [], c.exdata)
    case 5 => Command(5, c.key, [], [], c.attrs, [])
    case _ => Command(c.comType, c.key, [], [], c.attrs, c.exdata)
  }

  /** The data of a command in the order of the buffer. */
  function DataOf(c: Command): Bytes
  {
    c.key + c.val + c.skey + c.attrs + c.exdata
  }

  /**
   The fields that describe a command which carries only its own data: each part lies behind the ones before it, parts
   its type does not have at the end of the header.
   */
  function ScomOf(c: Command): Scom
  {
    var keyEnd := SCOM_SIZE + |c.key|;
    var valEnd := keyEnd + |c.val|;
    var skeyEnd := valEnd + |c.skey|;
    var attrsEnd := skeyEnd + |c.attrs|;
    Scom(c.comType, |c.key|, |c.val|, |c.skey|, |c.attrs|, |c.exdata|, SCOM_SIZE,
         if c.comType in {SCOM_SET_ALL, SCOM_REPLACE_VAL, SCOM_OW_VAL} then keyEnd else SCOM_SIZE,
         if c.comType in {SCOM_SET_ALL, SCOM_REPLACE_SKEY} then valEnd else SCOM_SIZE,
         if c.comType in {SCOM_SET_ALL, SCOM_REPLACE_ATTRS, SCOM_RENAME} then skeyEnd else SCOM_SIZE,
         if c.comType in {SCOM_OW_VAL, SCOM_RENAME} then attrsEnd else SCOM_SIZE)
  }

  /** The buffer of a command. */
  function Encoded(c: Command): Bytes
  {
    HeaderBytes(ScomOf(Carried(c))) + DataOf(Carried(c))
  }

  predicate Puttable(c: Command)
  {
    c.key != [] && c.comType <= SCOM_TYPE_MAX
  }

  /** memcpy into a buffer. */
  method CopyInto(buf: array<Byte>, pos: nat, bytes: Bytes)
    requires pos + |bytes| <= buf.Length
    modifies buf
    ensures buf[..] == old(buf[..pos]) + bytes + old(buf[pos + |bytes|..])
  {
    var i := 0;
    while i < |bytes|
      invariant 0 <= i <= |bytes|
      invariant buf[pos..pos + i] == bytes[..i]
      invariant buf[..pos] == old(buf[..pos]) && buf[pos + i..] == old(buf[pos + i..])
    {
      buf[pos + i] := bytes[i];
      i := i + 1;
    }
    assert buf[..] == buf[..pos] + buf[pos..pos + i] + buf[pos + i..];
  }

  class Archive {
    var binCom: array<Byte>

    constructor ()
      ensures fresh(binCom)
    {
      binCom := new Byte[0];
    }

    /** The length of the buffer: what the type carries. */
    method PutLength(c: Command) returns (ok: bool, total: nat)
      ensures ok == Puttable(c)
      ensures ok ==> total == |Encoded(c)|
    {
      if c.key == [] {
        return false, 0;
      }
      total := SCOM_SIZE + |c.key|;
      ok := true;
      if c.comType == SCOM_SET_ALL {
        total := total + |c.val| + |c.skey| + |c.attrs|;
      } else if c.comType == SCOM_REPLACE_VAL {
        total := total + |c.val|;
      } else if c.comType == SCOM_REPLACE_SKEY {
        total := total + |c.skey|;
      } else if c.comType == SCOM_REPLACE_ATTRS {
        total := total + |c.attrs|;
      } else if c.comType == SCOM_DEL_KEY {
      } else if c.comType == SCOM_OW_VAL {
        total := total + |c.val| + |c.exdata|;
      } else if c.comType == SCOM_RENAME {
        total := total + |c.attrs| + |c.exdata|;
      } else {
        ok := false;
      }
    }

    /**
     Builds the buffer of a command: the fields that its type uses are set and their data copied behind each other.
     */
    method Put(c: Command) returns (ok: bool)
      modifies this`binCom
      ensures ok == Puttable(c)
      ensures ok ==> fresh(binCom) && binCom[..] == Encoded(c)
      ensures !ok ==> binCom == old(binCom)
    {
      var total;
      ok, total := PutLength(c);
      if !ok {
        return;
      }
      binCom := new Byte[total](i => 0);
      var s := Scom(c.comType, |c.key|, 0, 0, 0, 0, SCOM_SIZE, SCOM_SIZE, SCOM_SIZE, SCOM_SIZE, SCOM_SIZE);
      var end := s.keyPos + |c.key|;
      var parts: Bytes := c.key;
      if c.comType == SCOM_SET_ALL || c.comType == SCOM_REPLACE_VAL || c.comType == SCOM_OW_VAL {
        s := s.(valLength := |c.val|, valPos := end);
        end := end + |c.val|;
      }
      if c.comType == SCOM_SET_ALL || c.comType == SCOM_REPLACE_SKEY {
        s := s.(skeyLength := |c.skey|, skeyPos := end);
        end := end + |c.skey|;
      }
      if c.comType == SCOM_SET_ALL || c.comType == SCOM_REPLACE_ATTRS || c.comType == SCOM_RENAME {
        s := s.(attrLength := |c.attrs|, attrsPos := end);
        end := end + |c.attrs|;
      }
      if c.comType == SCOM_OW_VAL || c.comType == SCOM_RENAME {
        s := s.(exdataLength := |c.exdata|, exdataPos := end);
        end := end + |c.exdata|;
      }
      assert s == ScomOf(Carried(c)) && end == total;
      CopyParts(c, s);
    }

    /** Writes the header and the parts to their places. */
    method CopyParts(c: Command, s: Scom)
      requires Puttable(c) && s == ScomOf(Carried(c)) && binCom.Length == |Encoded(c)|
      modifies binCom
      ensures binCom[..] == Encoded(c)
    {
      ghost var n, header := Carried(c), HeaderBytes(s);
      PartsAre(c);
      CopyInto(binCom, 0, HeaderBytes(s));
      assert binCom[..|header|] == binCom[..][..|header|] == header;
      CopyPart(c.key, s.keyPos, s.keyLength, header, n.key);
      CopyPart(c.val, s.valPos, s.valLength, header + n.key, n.val);
      CopyPart(c.skey, s.skeyPos, s.skeyLength, header + n.key + n.val, n.skey);
      CopyPart(c.attrs, s.attrsPos, s.attrLength, header + n.key + n.val + n.skey, n.attrs);
      CopyPart(c.exdata, s.exdataPos, s.exdataLength, header + n.key + n.val + n.skey + n.attrs, n.exdata);
      EncodedIs(c);
    }

    /** Copies a part that has a length; `done` is what the buffer holds so far, `part` what is to follow. */
    method CopyPart(bytes: Bytes, pos: nat, length: nat, ghost done: Bytes, ghost part: Bytes)
      requires length == |part| && (length == 0 || (part == bytes && pos == |done|))
      requires |done| + length <= binCom.Length && binCom[..|done|] == done
      modifies binCom
      ensures binCom[..|done + part|] == done + part
    {
      if 0 < length {
        CopyInto(binCom, pos, bytes);
        assert binCom[..|done| + length] == binCom[..][..|done| + length];
      }
    }
  }

  lemma EncodedIs(c: Command)
    ensures var n := Carried(c); HeaderBytes(ScomOf(n)) + n.key + n.val + n.skey + n.attrs + n.exdata == Encoded(c)
  {
    var n := Carried(c);
    Regrouped(HeaderBytes(ScomOf(n)), n.key, n.val, n.skey, n.attrs, n.exdata);
  }

  lemma Regrouped(h: Bytes, k: Bytes, v: Bytes, sk: Bytes, a: Bytes, x: Bytes)
    ensures h + k + v + sk + a + x == h + (k + v + sk + a + x)
  {
  }

  /** The parts of a buffer and their places. */
  lemma PartsAre(c: Command)
    requires Puttable(c)
    ensures
      var n, s := Carried(c), ScomOf(Carried(c));
      && s.keyLength == |n.key| && n.key == c.key && s.keyPos == SCOM_SIZE
      && s.valLength == |n.val| && (n.val == [] || (n.val == c.val && s.valPos == SCOM_SIZE + |n.key|))
      && s.skeyLength == |n.skey| && (n.skey == [] || (n.skey == c.skey && s.skeyPos == SCOM_SIZE + |n.key| + |n.val|))
      && s.attrLength == |n.attrs|
      && (n.attrs == [] || (n.attrs == c.attrs && s.attrsPos == SCOM_SIZE + |n.key| + |n.val| + |n.skey|))
      && s.exdataLength == |n.exdata|
      && (n.exdata == [] ||
          (n.exdata == c.exdata && s.exdataPos == SCOM_SIZE + |n.key| + |n.val| + |n.skey| + |n.attrs|))
  {
  }
}
