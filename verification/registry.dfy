/** The fixed data both scripts share: the MIME sections with their code
    bases, the alias groups, the column layout of a row, and the MIME
    code range. */
module Registry {
  /** A table row as the CSV reader yields it. */
  type Row = seq<string>

  /** The table: row 0 is the header. */
  type Table = seq<Row>

  /** Column positions of the four-column layout `name, tag, code, description`. */
  const NameColumn := 0
  const TagColumn := 1
  const CodeColumn := 2
  const DescriptionColumn := 3

  const MimeTag := "mimetype"

  /** The MIME top-level types and the base code of the range each owns. */
  const Sections: map<string, nat> := map[
    "application" := 0x200000,
    "audio" := 0x210000,
    "font" := 0x220000,
    "image" := 0x230000,
    "message" := 0x240000,
    "model" := 0x250000,
    "multipart" := 0x260000,
    "text" := 0x270000,
    "video" := 0x280000
  ]

  /** `code & 0xff0000` for a non-negative code: the bits 16..23. */
  function SectionBits(code: nat): (r: nat)
    ensures r % 0x10000 == 0 && r <= 0xff0000
  {
    (code / 0x10000) % 0x100 * 0x10000
  }

  /** Every section base sits in the MIME range and is its own section bits. */
  lemma SectionBases(s: string)
    requires s in Sections
    ensures InMimeRange(Sections[s]) && SectionBits(Sections[s]) == Sections[s]
  {
  }

  /** The codes reserved for MIME types: [0x200000, 0x300000). */
  predicate InMimeRange(code: nat)
  {
    0x200000 <= code < 0x300000
  }

  /** The groups of names allowed to share a code. */
  const AliasTable: seq<set<string>> := [{"ipfs", "p2p"}]

  /** The name-to-group map the validator builds from the alias table:
      each name maps to the last group listing it. */
  function AliasMap(groups: seq<set<string>>): (m: map<string, set<string>>)
    ensures forall n :: n in m <==> exists k :: 0 <= k < |groups| && n in groups[k]
    ensures forall n :: n in m ==> n in m[n]
  {
    if |groups| == 0 then map[]
    else
      var prev := AliasMap(groups[..|groups| - 1]);
      var last := groups[|groups| - 1];
      var m := prev + map n | n in last :: last;
      assert forall n :: n in m ==> exists k :: 0 <= k < |groups| && n in groups[k] by {
        forall n | n in m
          ensures exists k :: 0 <= k < |groups| && n in groups[k]
        {
          if n !in last {
            var k :| 0 <= k < |groups| - 1 && n in groups[..|groups| - 1][k];
            assert n in groups[k];
          }
        }
      }
      assert forall n :: (exists k :: 0 <= k < |groups| && n in groups[k]) ==> n in m by {
        forall n | exists k :: 0 <= k < |groups| && n in groups[k]
          ensures n in m
        {
          var k :| 0 <= k < |groups| && n in groups[k];
          if k < |groups| - 1 {
            assert n in groups[..|groups| - 1][k];
          }
        }
      }
      m
  }

  function Aliases(): map<string, set<string>>
  {
    AliasMap(AliasTable)
  }

  /** The validator's test `name in aliases and dup in aliases[name]`. */
  predicate SameAliasGroup(name: string, other: string)
  {
    name in Aliases() && other in Aliases()[name]
  }

  /** With the alias table as it stands, sharing a group is an equivalence
      on the names it lists, and the only pair of distinct names in one
      group is `ipfs` and `p2p`. */
  lemma AliasGroups(a: string, b: string)
    ensures SameAliasGroup(a, b) <==> a in {"ipfs", "p2p"} && b in {"ipfs", "p2p"}
  {
    var g := {"ipfs", "p2p"};
    assert AliasTable[..0] == [];
    assert Aliases() == map n | n in g :: g;
  }
}
