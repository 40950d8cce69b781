# JFIF APP0 segment codec

A Dafny model of four small Python scripts that work on JPEG/JFIF files at
the level of marker segments. All four treat a file as one immutable byte
string:

- `merge_xml_jpeg` builds the minimal 18-byte APP0 segment from seven header
  fields and inserts it right after the first SOI marker (`FF D8`).
- `decode_jfif_to_xml` finds the first APP0 marker (`FF E0`), slices the
  payload by the declared length, checks the `JFIF\0` identifier and reads
  the header fields.
- `extract_jfif_jpeg` splits a file into its first APP0 segment and the
  bytes from the first SOI on.
- `merge_jfif_jpeg` inserts arbitrary segment bytes right after the first
  SOI.

Marker codes follow ITU-T T.81, Table B.1. The APP0 length field counts
itself but not the marker (ITU-T T.81, B.1.1.4).

Every script is a pure computation over `bytes` once file I/O is removed, so
each becomes a Dafny function over `seq<byte>`. The files are laid out like
this:

- `pybytes.dfy` (module `PyBytes`) holds the Python `bytes` operations the
  scripts use: `find` for a two-byte marker, slicing with clamped bounds,
  `int.from_bytes` and `int.to_bytes` in big-endian order.
- `jfif.dfy` (module `Jfif`) holds the marker codes, the identifier, the
  error datatype and the header record.
- There is one module per script.
- `pipelines.dfy` (module `Pipelines`) holds lemmas about running one
  script's output through another.

The scripts raise `ValueError`, `IndexError` or `OverflowError`. The model
returns `Result.Err` with one of these errors instead: `NoSoi`, `NoApp0`,
`SoiAfterApp0`, `BadSignature`, `PayloadTooShort` or `FieldOutOfRange`.

Four behaviours of the scripts are easy to miss:

- The encoder does not truncate out-of-range fields. `to_bytes` raises, so
  the model returns `FieldOutOfRange`.
- A declared segment length that runs past the end of the data is not
  rejected. The slice clamps it.
- Extract followed by merge does not give back the original stream. The
  extracted body still holds the segment, so merging inserts a second copy.
- Decode after encode does not give back the header. The decoder reads its
  fields one byte too far; see "## Findings".

## Model

| member | source | states |
|---|---|---|
| PyBytes.Find | decode_file_to_xml.py:11 | `bytes.find` of `FF code`: -1 exactly when no offset holds the marker; otherwise the marker starts at the result and at no smaller offset |
| PyBytes.FindFrom | extract_jfif_jpeg.py:9-10 | the forward scan from an offset: the first match at or after it, and no match between it and the result |
| PyBytes.Slice | extract_jfif_jpeg.py:19 | Python's clamped `s[lo:hi]`: its length is `max(0, min(hi, len) - lo)`, element `k` is `s[lo + k]`, and it is the plain slice when the bounds are in range |
| PyBytes.FromBytesBig | decode_file_to_xml.py:41-42 | `int.from_bytes(s, 'big')` is below `256^len(s)` |
| PyBytes.Digits | merge_xml_jpeg.py:43-44 | the big-endian digits of `n` have the requested width and read back as `n` |
| PyBytes.ToBytesBig | merge_xml_jpeg.py:40-46 | `n.to_bytes(w, 'big')` succeeds exactly when `0 <= n < 256^w`, and then gives `w` bytes that read back as `n`; it never truncates |
| PyBytes.ToBytesOfFromBytes | merge_xml_jpeg.py:43-44 | the other direction: re-encoding the value of any byte string at its own width gives that byte string back |
| PyBytes.DigitsOfFromBytes | merge_xml_jpeg.py:43-44 | the digits of the value of `s` at width `len(s)` are `s` |
| PyBytes.ToBytesOne | merge_xml_jpeg.py:40-42 | a byte-sized value becomes the single byte holding it |
| PyBytes.ToBytesTwo | merge_xml_jpeg.py:43-44 | a 16-bit value becomes its high byte then its low byte |
| PyBytes.ReadU16 | decode_file_to_xml.py:15 | `int.from_bytes(s[i:i+2], 'big')` is the big-endian pair when two bytes remain, the single byte when one remains, 0 when none remains, and always below 65536 |
| PyBytes.StartsWith | decode_file_to_xml.py:35 | `bytes.startswith`: true exactly when the prefix fits and the leading bytes equal it position by position, so it is false when the prefix is longer than the data |
| PyBytes.FindIs | extract_jfif_jpeg.py:9-10 | a marker occurrence with none before it is the offset `find` returns |
| MergeXmlJpeg.EncodeSegment | merge_xml_jpeg.py:36-60 | fails with FieldOutOfRange exactly when a one-byte field is outside 0..255 or a density is outside 0..65535; otherwise 18 bytes `FF E0`, length 16 (the size minus the marker), `JFIF\0`, the three byte fields, both densities big-endian, then the two thumbnail sizes |
| MergeXmlJpeg.SegmentLayout | merge_xml_jpeg.py:49-60 | each field sits at its fixed offset in the concatenation, and the length field equals the segment size minus 2 |
| MergeXmlJpeg.Merge | merge_xml_jpeg.py:36-76 | fails exactly when a field is out of range (FieldOutOfRange, checked first) or the JPEG data has no `FF D8` (NoSoi); otherwise the output is the data up to and including the first SOI, the encoded segment, then the rest of the data; it is 18 bytes longer and cutting those 18 bytes out gives the data back |
| MergeJfifJpeg.Merge | merge_jfif_jpeg.py:14-25 | fails with NoSoi exactly when the data has no `FF D8`; otherwise the output is `len(jfif) + len(jpeg)` bytes: the data up to and including the first SOI unchanged, `jfif` verbatim, then every later byte in order |
| MergeJfifJpeg.CutAfterMerge | merge_jfif_jpeg.py:21-25 | taking the inserted block out of the output gives back the JPEG data |
| MergeJfifJpeg.MergeEmpty | merge_jfif_jpeg.py:25 | merging an empty block returns the JPEG data unchanged |
| MergeJfifJpeg.MergeKeepsFirstSoi | merge_jfif_jpeg.py:14-25 | the first SOI of the output is at the offset of the first SOI of the input |
| DecodeFileToXml.Payload | decode_file_to_xml.py:15-16 | the payload `data[app0 + 4 : app0 + 2 + L]` is exactly `max(0, min(app0 + 2 + L, len) - (app0 + 4))` bytes, so a declared length past the end is clamped to the data; it is at most `max(0, L - 2)` bytes, and its byte `k` is `data[app0 + 4 + k]` |
| DecodeFileToXml.ReadFields | decode_file_to_xml.py:38-44 | every field read from the payload is a byte or a 16-bit value |
| DecodeFileToXml.DecodeWith | decode_file_to_xml.py:11-44 | NoApp0 exactly when the data has no `FF E0`; every decoded field is in range |
| DecodeFileToXml.Decode | decode_file_to_xml.py:11-44 | NoApp0 exactly when there is no `FF E0`; with `p` the payload of the first APP0: BadSignature exactly when `p` does not start with `JFIF\0`, PayloadTooShort exactly when it does but has fewer than 14 bytes; on success the declared length is at least 16 and the fields are the bytes at payload offsets 6, 7, 8, the pairs at 9-10 and 11-12, the byte at 13, and the byte at 14 if the payload is longer than 14 bytes, else 0 |
| DecodeFileToXml.DecodeCorrected | decode_file_to_xml.py:20-44 | the same decoder with the fields read from payload offset 5, right after the five-byte identifier; PayloadTooShort below 13 bytes |
| ExtractJfifJpeg.Extract | extract_jfif_jpeg.py:9-19 | NoApp0 exactly when there is no `FF E0`; NoSoi exactly when there is an `FF E0` but no `FF D8`; SoiAfterApp0 exactly when both exist and the first SOI comes after the first APP0; no other failure |
| ExtractJfifJpeg.ExtractParts | extract_jfif_jpeg.py:9-30 | on success the first SOI is at least 2 bytes before the first APP0; the segment is the bytes of the data from the APP0 offset on; the body is `data[soi:]` and starts with `FF D8` |
| ExtractJfifJpeg.ExtractSegment | extract_jfif_jpeg.py:16-19 | the segment is `data[app0 : app0 + 2 + L]` of length `min(2 + L, len - app0)`, so a declared length past the end is shortened, and it starts with `FF E0` |
| ExtractJfifJpeg.ExtractBodyHoldsSegment | extract_jfif_jpeg.py:19-30 | the extracted body still holds the segment at offset `app0 - soi` |
| ExtractJfifJpeg.SuffixHolds | extract_jfif_jpeg.py:19-30 | the suffix `data[soi:]` holds the bytes `data[app0 : app0 + n]` at offset `app0 - soi` |
| Pipelines.FirstApp0AfterMerge | merge_jfif_jpeg.py:21-25 | a block starting with `FF E0`, inserted into data with no APP0 before its first SOI, is the first APP0 of the output |
| Pipelines.DecodeSeesSegment | decode_file_to_xml.py:11-16 | decoding data whose first APP0 is a well-formed segment gives the same result as decoding that segment alone |
| Pipelines.DecodeOfSegment | decode_file_to_xml.py:11-44 | decoding an 18-byte well-formed segment that carries `JFIF\0` succeeds and reads the fields from its 14-byte payload |
| Pipelines.FieldsOfLayout | decode_file_to_xml.py:38-44 | on the byte layout the encoder writes, reading from payload offset 5 gives the header back and reading from offset 6 gives the shifted header |
| Pipelines.DecodeOfEncoded | decode_file_to_xml.py:35-44 | decoding the segment encoded for an in-range header gives the shifted header, not the header |
| Pipelines.DecodeCorrectedOfEncoded | decode_file_to_xml.py:20-44 | the corrected decoder gives back every field of the encoded header |
| Pipelines.DecodeAfterMergeXml | merge_xml_jpeg.py:67-76 | after `merge_xml_jpeg` on data with no APP0 before its first SOI, the decoder as written returns the shifted header and the corrected decoder returns the merged header |
| Pipelines.ExtractAfterMerge | extract_jfif_jpeg.py:9-30 | a well-formed segment merged into data with no APP0 before its first SOI is extracted byte for byte; the body is the output from that SOI on |
| Pipelines.MergeAfterExtract | extract_jfif_jpeg.py:30 | for every successful extraction, merging the segment back into the body succeeds; the output is `len(data) - soi + len(segment)` bytes and holds the segment twice, at offset 2 and at `len(segment) + app0 - soi`; it is never the input |
| Pipelines.MergeExtracted | merge_jfif_jpeg.py:14-25 | the same conclusions from the layout alone: a segment cut from the data at `app0` and the suffix from the first SOI at `soi` |
| Pipelines.MergedDiffers | merge_jfif_jpeg.py:21-25 | an SOI-led output longer than the suffix from the first SOI of the data is not the data |
| Pipelines.SegmentTwiceAfterMerge | merge_jfif_jpeg.py:21-25 | merging a block into SOI-led data that already holds it at offset `d` succeeds, keeps the leading `FF D8`, and leaves two copies, at offset 2 and at `len(block) + d` |
| Pipelines.InsertedTwice | merge_jfif_jpeg.py:25 | the layout `body[:2] + block + body[2:]` of a body holding the block `d` bytes in holds it at offset 2 and at `len(block) + d` |
| Pipelines.SampleEncoding | merge_xml_jpeg.py:36-60 | the segment of the sample file is what the encoder writes for version 1.2 at 72x72 dpi |
| Pipelines.SampleDecode | decode_file_to_xml.py:38-44 | the sample file `FF D8 FF E0 00 10 'JFIF' 00 01 02 00 00 48 00 48 00 00` is the encoding of version 1.2 at 72x72; the decoder as written reads it as version 2.0 at 18432x18432 and the corrected decoder reads 1.2 at 72x72 |

## Findings

| source | as written | input that shows it | evidently intended | confidence | as-written member | corrected member |
|---|---|---|---|---|---|---|
| decode_file_to_xml.py:38-44 | fields read from payload index 6 after a 5-byte `JFIF\0` identifier (the comment at line 21 counts it as 6 bytes) | the segment `FF E0 00 10 'JFIF' 00 01 02 00 00 48 00 48 00 00` decodes as version 2.0, units 0, density 18432x18432 instead of 1.2 at 72x72 | fields read from index 5, so decoding the segment that `merge_xml_jpeg` writes gives back its header | high; not executed | Pipelines.SampleDecode | DecodeFileToXml.DecodeCorrected |

`DecodeFileToXml.Decode` models the code as written. `Pipelines.DecodeOfEncoded` proves the shifted relation for every in-range header. `Pipelines.DecodeCorrectedOfEncoded` and `Pipelines.DecodeAfterMergeXml` prove the round trip for the corrected decoder.

## Left out

- File reading and writing, and the output path derivation through `os.path.splitext`. Inputs and outputs are byte-sequence values.
- XML parsing and building with `xml.etree.ElementTree`, and the decimal `str`/`int` text conversion of the fields. The seven fields are a plain `Header` record. An `int()` parse failure on malformed XML text is not modelled.
- `print`, the `sys.argv` checks and the `__main__` blocks. These are command-line glue.
- ExtractJfifJpeg.Extract: the script raises one `ValueError` for all three failures. The model tells them apart, checking APP0 first, then SOI, then their order. A caller that only checks for failure sees the same behaviour.
- Python's negative slice and index bounds are not modelled. Every bound the scripts compute is non-negative.
- The decoder's `IndexError` for payloads shorter than 14 bytes is one error, `PayloadTooShort`. The model does not say which index read raised.
