# pymodaq_utils core, modelled in Dafny

This project models the protocol core of `pymodaq_utils`:

- The **serialization primitives** of `pymodaq_utils.serialize.utils`:
  - `int_to_bytes` / `bytes_to_int`, a 4-byte big-endian count;
  - `str_to_bytes` / `bytes_to_string`;
  - `str_len_to_bytes`.
- The **codecs**: `StringSerializeDeserialize`, `BytesSerializeDeserialize`, `ScalarSerializeDeserialize`, `NdArraySerializeDeserialize` and `ListSerializeDeserialize`.
  - Each `serialize` writes a length-prefixed frame.
  - Each `deserialize` returns `(value, remaining bytes)`.
- The **`SerializableFactory`**:
  - It keeps a registry that maps a type name to a codec.
  - It wraps every value in the envelope `4-byte tag length ++ tag ++ codec output`. The tag is the exact runtime type name, so `True` is tagged `bool`, never `int`.
  - A list is a 4-byte count followed by one envelope per element, so its elements may have different types.
- The **socket reliability layer**: `Socket.check_sended` and `Socket.check_received_length`, running over the in-memory `MockPythonSocket` of the socket tests. The mock's `send` appends to a byte buffer; its `recv(n)` removes up to `n` bytes from the front.
- The **configuration helpers** that do no file I/O:
  - `replace_file_extension`;
  - `check_config`, which fills in missing keys from a template in place;
  - `recursive_iterable_flattening`;
  - the key-path `Config(...)`, `config[...]` and `config[...] = ...`;
  - the merge that lays the user configuration over the system one.
- The Hatch **build hook** `update_metadata_from_toml`. Given a parsed `plugin_info.toml`, it writes this package metadata:
  - the package name;
  - the authors;
  - the dependencies;
  - the description;
  - the urls;
  - the entry points.

## Modules

| file | module | contents |
|---|---|---|
| `wrappers.dfy` | `Wrappers` | `Option`, `Result` and `Outcome`; `Error` holds the exception kinds the code raises |
| `binary.dfy` | `Binary` | bytes, plus big- and little-endian fixed-width integers with their round trips |
| `values.dfy` | `Values` | `Value`, one constructor per Python type the serializer knows; `TypeName`, the exact type name |
| `ser_utils.dfy` | `SerUtils` | the integer and string primitives |
| `codecs.dfy` | `Codecs` | the string, bytes, scalar and ndarray codecs |
| `factory.dfy` | `Factory` | the registry, the envelope, the list codec (as functions, and as loop methods over a cursor) and the `SerializableFactory` class |
| `sockets.dfy` | `Sockets` | the `MockPythonSocket` and `Socket` classes with their buffers, and the two loops of `Socket` |
| `config.dfy` | `Config` | file names, `check_config` on a `ConfigDict` class, flattening, key paths on a `BaseConfig` class, and the merge |
| `hatch_plugins.dfy` | `HatchPlugins` | the entry-point groups, the `Metadata` class and `UpdateMetadataFromToml` |

The pure conversions and codecs are functions, with lemmas for their round trips. Some code updates state in place; that code is written as classes whose methods say what changes:

- the mock socket's buffers;
- the dict that `check_config` completes;
- the configuration tree that `__setitem__` updates;
- the metadata dict that the build hook fills.

The list writer and the key-path loop of `Config(...)` are `while` loops over an index into the list or the path; the list reader's loop advances a byte cursor. Each is proved equal to the function that specifies it. The send and receive loops of `Socket` are proved against the mock's buffers before the call: the send buffer gains exactly the data, and the receive returns exactly its front. The entry-point code is a chain of conditionals, proved equal to `DeclaredEntryPoints`.

## Model

| member | source | states |
|---|---|---|
| `Binary.ToBigEndian` | tests/serialize/ser_utils_test.py:15 | the fixed-width big-endian encoding has exactly the requested width |
| `Binary.FromBigEndian` | tests/serialize/ser_utils_test.py:17 | the value of `k` big-endian bytes, as `int.from_bytes(b, 'big')`, is below 256^k |
| `Binary.BigEndianRoundTrip` | tests/serialize/ser_utils_test.py:15-17 | decoding the big-endian encoding of `n` gives back `n` |
| `Binary.BigEndianOfValue` | tests/serialize/ser_utils_test.py:17 | every byte string is the big-endian encoding of its own value, so a decode and re-encode changes nothing |
| `Binary.FourBytesBigEndian` | tests/serialize/ser_utils_test.py:15 | the 4-byte encoding is the most significant byte first, then the next three, as `int.to_bytes(4, 'big')` |
| `Binary.FromLittleEndian` | tests/serialize/serializer_test.py:72 | a `k`-byte little-endian number is below 256^k |
| `Binary.ToLittleEndian` | tests/serialize/serializer_test.py:72 | the little-endian element encoding has exactly the requested width |
| `Binary.LittleEndianRoundTrip` | tests/serialize/serializer_test.py:72 | decoding the little-endian encoding of `n` gives back `n` |
| `Values.TypeName` | tests/serialize/serializer_test.py:104-109 | the exact type name is one of the eight registered names; it is `bool` exactly for a bool and `int` exactly for an int, so a bool is never tagged `int` |
| `SerUtils.IntToBytes` | tests/serialize/ser_utils_test.py:12-22 | succeeds exactly on an int (or bool) in [0, 2^32); the result is 4 bytes whose big-endian value is the integer; a non-integer is a TypeError, a negative one a ValueError, one of 2^32 or more an OverflowError |
| `SerUtils.BytesToInt` | tests/serialize/ser_utils_test.py:17 | the value of `k` bytes is below 256^k |
| `SerUtils.IntToBytesIsBigEndian` | tests/serialize/ser_utils_test.py:15 | `int_to_bytes(n)` equals the four bytes of `n.to_bytes(4, 'big')` |
| `SerUtils.IntRoundTrip` | tests/serialize/ser_utils_test.py:17 | `bytes_to_int(int_to_bytes(n)) == n` for every `n` in [0, 2^32) |
| `SerUtils.IntRoundTripFromBytes` | tests/serialize/ser_utils_test.py:13-17 | every 4-byte string is `int_to_bytes` of its own `bytes_to_int` |
| `SerUtils.EncodeAscii` | tests/serialize/ser_utils_test.py:27 | the encoding of ASCII text is one byte per character, with the character's code |
| `SerUtils.StrToBytes` | tests/serialize/ser_utils_test.py:26-30 | succeeds exactly on a str, giving its encoding; anything else is a TypeError |
| `SerUtils.BytesToString` | tests/serialize/ser_utils_test.py:28 | succeeds exactly when every byte is ASCII, and the decoded text encodes back to the input; otherwise a UnicodeDecodeError |
| `SerUtils.StrRoundTrip` | tests/serialize/ser_utils_test.py:25-28 | `bytes_to_string(str_to_bytes(m)) == m` |
| `SerUtils.StrLenToBytes` | tests/serialize/ser_utils_test.py:37-40 | the second component is always `int_to_bytes` of the first one's length; on text the first is the encoding; bytes pass through; other types are a TypeError |
| `SerUtils.StrLenToBytesOfText` | tests/serialize/ser_utils_test.py:36-42 | `str_len_to_bytes(m) == (str_to_bytes(m), int_to_bytes(len(m)))`, and the first component decodes back to `m` |
| `Codecs.BytesSerialize` | tests/serialize/serializer_test.py:50 | a bytes frame is the 4-byte big-endian length and then the raw bytes; fails exactly on non-bytes (TypeError) or lengths of 2^32 and more |
| `Codecs.BytesDeserialize` | tests/serialize/serializer_test.py:57 | on success the input splits into a 4-byte length, that many payload bytes and the rest; otherwise TruncatedData |
| `Codecs.BytesRoundTrip` | tests/serialize/serializer_test.py:57 | deserializing a bytes frame followed by any tail gives the bytes and exactly that tail |
| `Codecs.StringSerialize` | tests/serialize/serializer_test.py:33 | a string frame is the 4-byte big-endian length and then the text bytes; fails exactly on non-str (TypeError) or over-long text |
| `Codecs.StringDeserialize` | tests/serialize/serializer_test.py:41 | reads the same frame as the bytes codec and leaves the same rest, a strictly shorter suffix of the input |
| `Codecs.StringRoundTrip` | tests/serialize/serializer_test.py:41 | `SSD.deserialize(SSD.serialize(s) + tail) == (s, tail)` |
| `Codecs.ParseDType` | tests/serialize/serializer_test.py:141-144 | a descriptor that parses names exactly the element type it gives; any other descriptor is UnknownDtype |
| `Codecs.ParseDTypeName` | tests/serialize/serializer_test.py:141-144 | every element type's descriptor parses back to that type |
| `Codecs.EncodeItem` | tests/serialize/serializer_test.py:133-139 | an element encodes exactly when its type is the array's element type (ints in the int64 range), into exactly the element size |
| `Codecs.DecodeItem` | tests/serialize/serializer_test.py:144 | a decoded element always has the array's element type |
| `Codecs.ItemRoundTrip` | tests/serialize/serializer_test.py:144 | decoding an encoded element gives the element back |
| `Codecs.ScalarSerialize` | tests/serialize/serializer_test.py:66-68 | succeeds exactly on an int in the int64 range, a float, a complex or a bool; an int outside int64 is an OverflowError, any other non-scalar a TypeError |
| `Codecs.ScalarDeserialize` | tests/serialize/serializer_test.py:72 | on success yields a scalar and a strictly shorter suffix of the input |
| `Codecs.ScalarRoundTrip` | tests/serialize/serializer_test.py:72 | `ScSD.deserialize(ScSD.serialize(s) + tail) == (s, tail)` for ints, floats, complexes and bools |
| `Codecs.ScalarReads` | tests/serialize/serializer_test.py:72 | a descriptor frame followed by an element frame of the right size reads back as that element |
| `Codecs.DescriptorReads` | tests/serialize/serializer_test.py:144 | a dtype descriptor frame reads back as the descriptor, which parses to its element type |
| `Codecs.EncodeItems` | tests/serialize/serializer_test.py:142 | an array buffer encodes exactly when every element does, into element count times element size bytes |
| `Codecs.DecodeItems` | tests/serialize/serializer_test.py:144 | decoding a buffer of `n` elements yields `n` values, each of the element type |
| `Codecs.ItemsRoundTrip` | tests/serialize/serializer_test.py:144 | decoding an encoded buffer gives the elements back in order |
| `Codecs.EncodeDims` | tests/serialize/serializer_test.py:142 | the shape encodes exactly when every dimension fits 4 bytes, into 4 bytes per dimension |
| `Codecs.DecodeDims` | tests/serialize/serializer_test.py:144 | reading `k` dimensions consumes exactly 4·k bytes, otherwise TruncatedData |
| `Codecs.DimsRoundTrip` | tests/serialize/serializer_test.py:144 | decoding an encoded shape followed by any tail gives the shape and exactly that tail |
| `Codecs.NdArraySerialize` | tests/serialize/serializer_test.py:142-143 | an array serializes exactly when its data has `Product(shape)` elements of its element type and its shape fits the header; a non-array is a TypeError |
| `Codecs.NdArrayHeader` | tests/serialize/serializer_test.py:144 | a parsed header leaves a strictly shorter suffix |
| `Codecs.NdArrayDeserialize` | tests/serialize/serializer_test.py:144 | a decoded array holds `Product(shape)` elements, all of its element type, and leaves a strictly shorter suffix |
| `Codecs.HeaderRoundTrip` | tests/serialize/serializer_test.py:144 | the dimension count, dimensions and descriptor read back as the shape and the element type |
| `Codecs.HeaderReads` | tests/serialize/serializer_test.py:144 | a count matching the decoded dimensions, followed by a descriptor frame, is read as that header |
| `Codecs.ArrayRoundTrip` | tests/serialize/serializer_test.py:141-144 | `NdSD.deserialize(NdSD.serialize(a) + tail) == (a, tail)`: shape, element type and every element come back |
| `Factory.DefaultRegistry` | tests/serialize/serializer_test.py:11 | the factory knows exactly `str`, `bytes`, `int`, `float`, `complex`, `bool`, `ndarray` and `list` |
| `Factory.Serialize` | tests/serialize/serializer_test.py:35-36 | every codec's output is at least 4 bytes long |
| `Factory.ApplySerializer` | tests/serialize/serializer_test.py:38-39 | a value whose type name is not registered is refused with that name; a successful envelope is at least 8 bytes long |
| `Factory.GetSerializer` | tests/serialize/serializer_test.py:35-39 | `get_serializer(name)` succeeds exactly when the name is registered, fails with that name otherwise, and the function it returns serializes every value of that type as `get_apply_serializer` does |
| `Factory.ListSerialize` | tests/serialize/serializer_test.py:158-159 | only a list with fewer than 2^32 elements serializes; a non-list is a TypeError |
| `Factory.SerializeItems` | tests/serialize/serializer_test.py:158-159 | the elements' envelopes, when they all serialize, take at least 8 bytes per element |
| `Factory.SerializeItemsOk` | tests/serialize/serializer_test.py:151-159 | a list's elements serialize exactly when each element does |
| `Factory.Deserialize` | tests/serialize/serializer_test.py:41 | a successful codec read leaves a strictly shorter suffix |
| `Factory.ApplyDeserializer` | tests/serialize/serializer_test.py:43-44 | a successful envelope read leaves a strictly shorter suffix |
| `Factory.ApplyDeserializerObject` | tests/serialize/serializer_test.py:43-44 | `get_apply_deserializer` succeeds exactly when the envelope reads |
| `Factory.ListDeserialize` | tests/serialize/serializer_test.py:161-162 | a decoded list is a list with as many elements as the 4-byte count says |
| `Factory.DeserializeItems` | tests/serialize/serializer_test.py:163-167 | reading `n` envelopes yields `n` values and a suffix of the input |
| `Factory.ApplyRoundTrip` | tests/serialize/serializer_test.py:169-174 | for any registry and any value it can serialize, the envelope followed by any tail reads back as the value and that tail (lists included, recursively) |
| `Factory.CodecRoundTrip` | tests/serialize/serializer_test.py:41 | each codec's `deserialize(serialize(v) + tail) == (v, tail)` |
| `Factory.ListRoundTrip` | tests/serialize/serializer_test.py:158-167 | `LSD.deserialize(LSD.serialize(l) + tail) == (l, tail)`: length, order, values and types come back |
| `Factory.ItemsRoundTrip` | tests/serialize/serializer_test.py:163-167 | a run of element envelopes reads back as the elements in order, leaving the tail |
| `Factory.FactoryRoundTrip` | tests/serialize/serializer_test.py:43-44 | `get_apply_deserializer(get_apply_serializer(v)) == v` |
| `Factory.CodecRoundTripExact` | tests/serialize/serializer_test.py:41 | `deserialize(serialize(v)) == (v, b'')`: nothing is left over |
| `Factory.DefaultSerializes` | tests/serialize/serializer_test.py:151-156 | with the default registry every value serializes whose ints fit int64, inside arrays too, whose arrays are consistent and whose lengths fit 4 bytes |
| `Factory.DefaultRoundTrip` | tests/serialize/serializer_test.py:169-174 | with the default registry such a value serializes, and it round-trips through the factory |
| `Factory.EnvelopeLayout` | tests/serialize/serializer_test.py:35-39 | the envelope is the 4-byte tag length, the tag and the codec's output, and `get_serializer(type(v))(v) == get_apply_serializer(v)` |
| `Factory.BoolIsTaggedBool` | tests/serialize/serializer_test.py:104-109 | `True` and `False` are sent as `\x00\x00\x00\x04bool` followed by the scalar codec's output, and the tag reads back as `bool` |
| `Factory.DefaultBoolEnvelope` | tests/serialize/serializer_test.py:107-109 | the default factory wraps a bool with the tag `bool` and the scalar codec |
| `Factory.BoolTag` | tests/serialize/serializer_test.py:106-108 | the tag frame for `bool` is the bytes 0, 0, 0, 4 and then `bool` |
| `Factory.RegisterOverwrites` | tests/serialize/serializer_test.py:38-39 | after re-registering a type name, its values use the new codec, and values of other non-list types serialize exactly as before |
| `Factory.SerializeList` | tests/serialize/serializer_test.py:158-159 | the loop that writes the count and then one envelope per element computes `ListSerialize` |
| `Factory.DeserializeList` | tests/serialize/serializer_test.py:161-162 | the list reader computes `ListDeserialize` |
| `Factory.DeserializeElements` | tests/serialize/serializer_test.py:163-167 | the loop that reads one envelope per iteration from an advancing cursor computes `DeserializeItems` |
| `Factory.SerializableFactory.constructor` | tests/serialize/serializer_test.py:11 | a new factory holds the default registrations |
| `Factory.SerializableFactory.Register` | tests/serialize/serializer_test.py:11 | registering binds the name to the codec and leaves every other registration unchanged |
| `Factory.SerializableFactory.GetApplySerializer` | tests/serialize/serializer_test.py:38-39 | `get_apply_serializer` serializes with the current registry, and its output reads back as the value |
| `Factory.SerializableFactory.GetApplyDeserializer` | tests/serialize/serializer_test.py:43-44 | `get_apply_deserializer` reads one envelope with the current registry and returns its value |
| `Sockets.MockPythonSocket.constructor` | tests/serialize/socket_test.py:9-19 | a new mock has empty buffers and is neither listening, connected nor closed, with no name |
| `Sockets.MockPythonSocket.Bind` | tests/serialize/socket_test.py:21-29 | an address that does not have two parts is a TypeError; host `''` is recorded as `0.0.0.0`, any other host as given; nothing else changes |
| `Sockets.MockPythonSocket.Listen` | tests/serialize/socket_test.py:31-32 | sets the listening flag only |
| `Sockets.MockPythonSocket.Accept` | tests/serialize/socket_test.py:34-35 | returns the mock itself and the address `0.0.0.0` |
| `Sockets.MockPythonSocket.GetSockName` | tests/serialize/socket_test.py:37-38 | returns the bound name, or an AttributeError before any bind |
| `Sockets.MockPythonSocket.Connect` | tests/serialize/socket_test.py:40-41 | sets the connected flag only |
| `Sockets.MockPythonSocket.Send` | tests/serialize/socket_test.py:43-45 | appends the bytes to the send buffer and returns their count; non-bytes are a TypeError with nothing appended |
| `Sockets.MockPythonSocket.SendAll` | tests/serialize/socket_test.py:47-48 | appends the bytes to the sendall buffer only |
| `Sockets.MockPythonSocket.Recv` | tests/serialize/socket_test.py:50-53 | returns the first min(n, buffer length) bytes and removes exactly those; the rest stays in order |
| `Sockets.MockPythonSocket.Close` | tests/serialize/socket_test.py:55-56 | sets the closed flag only |
| `Sockets.Socket.constructor` | tests/serialize/socket_test.py:84 | the wrapper holds the given socket |
| `Sockets.Socket.Bind` | tests/serialize/socket_test.py:85-88 | forwards bind: the wrapped socket's name becomes `('0.0.0.0', 5544)` for `('', 5544)`; an address without two parts is a TypeError; the buffers and flags stay |
| `Sockets.Socket.Listen` | tests/serialize/socket_test.py:86-87 | forwards listen: the wrapped socket is listening; its buffers, name and other flags stay |
| `Sockets.Socket.Accept` | tests/serialize/socket_test.py:89 | the accepted connection wraps the same socket; the address is `0.0.0.0` |
| `Sockets.Socket.GetSockName` | tests/serialize/socket_test.py:88 | forwards getsockname: the bound name, or an AttributeError before any bind |
| `Sockets.Socket.Connect` | tests/serialize/socket_test.py:90-91 | forwards connect: the wrapped socket is connected; its buffers, name and other flags stay |
| `Sockets.Socket.Send` | tests/serialize/socket_test.py:92-93 | forwards send: the bytes are appended to the send buffer and their count returned, non-bytes are a TypeError; the sendall buffer, name and flags stay |
| `Sockets.Socket.SendAll` | tests/serialize/socket_test.py:94-95 | forwards sendall: the bytes are appended to the sendall buffer, non-bytes are a TypeError; the send buffer, name and flags stay |
| `Sockets.Socket.Recv` | tests/serialize/socket_test.py:96-97 | forwards recv: the first min(n, buffered) bytes of the send buffer are removed and returned; the sendall buffer, name and flags stay |
| `Sockets.Socket.Close` | tests/serialize/socket_test.py:98-99 | forwards close: the wrapped socket is closed; its buffers, name and other flags stay |
| `Sockets.Socket.CheckSended` | tests/serialize/socket_test.py:101-107 | bytes end up appended in full to the send buffer; a str is a TypeError with nothing sent; the sendall buffer, name and flags stay |
| `Sockets.Socket.CheckReceivedLength` | tests/serialize/socket_test.py:109-118 | returns exactly the first `length` buffered bytes and leaves the rest, for any positive receive cap; asking for more than is buffered drains it and fails as ConnectionClosed; the sendall buffer, name and flags stay |
| `Sockets.BaseFunScenario` | tests/serialize/socket_test.py:83-99 | the test's sequence through `Socket`: after bind, listen, accept, connect, send, sendall, recv and close, the socket is listening, connected and closed, is named `('0.0.0.0', 5544)`, the peer address is `0.0.0.0`, both buffers hold `test` after sending, and the send buffer is empty after the receive |
| `Sockets.SendThenReceive` | tests/serialize/socket_test.py:109-113 | what `check_sended` sends, `check_received_length` of its length returns, leaving the buffer empty |
| `Sockets.ManySendsDrained` | tests/serialize/socket_test.py:115-118 | after 1025 sends of `test`, `check_received_length(4100)` returns all 4100 bytes and the buffer is empty |
| `Config.Stem` | tests/config_test.py:30-32 | the stem is a prefix of the name; either it is the whole name, or the next character is the suffix dot (the last dot, neither first nor last); it is the whole name exactly when the name has no such dot |
| `Config.StemOfDotted` | tests/config_test.py:30-31 | the stem of `base.ext`, with a non-empty base and an ext without dots, is `base` |
| `Config.ReplaceFileExtension` | tests/config_test.py:27-32 | the file name's stem, a dot, and the extension without any leading dot; an empty extension is an IndexError |
| `Config.ReplacesExtension` | tests/config_test.py:30-31 | `name.tiff` with `toml` or `.toml` becomes `name.toml` |
| `Config.AppendsExtension` | tests/config_test.py:32 | a name without an extension gets `.toml` appended |
| `Config.DotIsOptional` | tests/config_test.py:30-31 | the extension gives the same result with or without a leading dot |
| `Config.ReplaceIdempotent` | tests/config_test.py:30-32 | replacing the extension twice gives the same name as replacing it once |
| `Config.ConfigDict.constructor` | tests/config_test.py:114-116 | a dict holds the given entries |
| `Config.Filled` | tests/config_test.py:118-121 | the filled dict has the template keys and its own; its own values stay, missing keys take the template's |
| `Config.FilledUnchangedIff` | tests/config_test.py:117-121 | filling changes nothing exactly when the dict already has every template key |
| `Config.FilledIdempotent` | tests/config_test.py:117-118 | filling twice is filling once |
| `Config.CheckConfig` | tests/config_test.py:113-121 | `check_config` fills the dict in place, returns True exactly when a key was missing, and leaves the template unchanged |
| `Config.CheckConfigExample` | tests/config_test.py:113-121 | the test's dicts: `dict3` becomes `{status: None, name: 'test'}`, and `dict2` is left as it was |
| `Config.Flatten` | tests/config_test.py:203-206 | a flat list of atoms flattens to the same atoms in the same order |
| `Config.FlattenAppend` | tests/config_test.py:205-206 | flattening a concatenation concatenates the flattenings, which keeps the order |
| `Config.FlattenIdempotent` | tests/config_test.py:205-206 | flattening a flattened list changes nothing |
| `Config.FlattenNested` | tests/config_test.py:205 | wrapping a list in another list does not change its flattening |
| `Config.FlattenExample` | tests/config_test.py:203-206 | the test's nested list flattens to `[1, 3, 'klm', 4, 'poi', 1, 1, 2, 'uio']` |
| `Config.FlattenExampleHead` | tests/config_test.py:205 | the first part of the test's list flattens to `[1, 3, 'klm', 4, 'poi']` |
| `Config.FlattenExampleTail` | tests/config_test.py:205 | the last part of the test's list flattens to `[1, 1, 2, 'uio']` |
| `Config.Step` | tests/config_test.py:132 | a subscript succeeds exactly on a table holding the key, giving its entry; a missing key is a KeyError, a leaf a TypeError |
| `Config.Lookup` | tests/config_test.py:130-136 | an empty key path is an IndexError; `TuplePathIsChained` and `WalkAppend` give the chaining of the keys |
| `Config.Walk` | tests/config_test.py:134-136 | following a key path fails only as a KeyError for one of the path's keys, or as a TypeError on a leaf |
| `Config.WalkAppend` | tests/config_test.py:134-136 | walking `p + q` is walking `p` and then `q` from where `p` ended |
| `Config.TuplePathIsChained` | tests/config_test.py:136 | `config['a', 'b'] == config['a']['b']`, errors included |
| `Config.Assign` | tests/config_test.py:141 | assigning into a leaf is a TypeError; a successful assignment gives a table whose keys are the old ones plus the path's first key; failures are a KeyError for one of the path's keys or a TypeError |
| `Config.AssignOkIff` | tests/config_test.py:141 | an assignment succeeds exactly when every proper prefix of the path leads to a table |
| `Config.GetAfterSet` | tests/config_test.py:141-142 | after an assignment the path leads to the assigned value |
| `Config.SetLeavesOthers` | tests/config_test.py:141 | an assignment does not change any path that branches off from it |
| `Config.SetPath` | tests/config_test.py:141 | assigning through an empty path is an error |
| `Config.SetThenLookup` | tests/config_test.py:141-142 | after `config[path] = x`, `config(*path) == x` |
| `Config.SetItemExample` | tests/config_test.py:138-142 | `config['style', 'darkstyle'] = 'bright'` then reads `'bright'` whenever a `style` table exists |
| `Config.BaseConfig.constructor` | tests/config_test.py:131 | a configuration holds the loaded tree |
| `Config.BaseConfig.Call` | tests/config_test.py:130-132 | the loop over the path's keys computes `Lookup` |
| `Config.BaseConfig.GetItem` | tests/config_test.py:132 | a single key gives its entry, or a KeyError |
| `Config.BaseConfig.SetItem` | tests/config_test.py:141 | the tree becomes `SetPath` of the old tree; on an error it is unchanged |
| `Config.Merge` | tests/config_test.py:182-194 | the merge is a table exactly when the user's entry is; where either side is a leaf, the user's entry is the result |
| `Config.MergeKeys` | tests/config_test.py:192-194 | a merged table has the keys of both tables |
| `Config.UserLeafWins` | tests/config_test.py:105-107 | a leaf the user sets, at any depth, is the merged value |
| `Config.SystemKept` | tests/config_test.py:193-194 | a system entry is kept wherever the user's config says nothing along its path |
| `Config.MergeEmptyUser` | tests/config_test.py:95-96 | with an empty user configuration the system one comes back unchanged |
| `Config.MergeSelf` | tests/config_test.py:192-194 | merging a configuration with itself changes nothing |
| `Config.MergeIdempotent` | tests/config_test.py:192-194 | laying the same user configuration over twice is laying it over once |
| `Config.NestedUpdateExample` | tests/config_test.py:170-194 | the test's case: `scan.scan1d.start` takes the user's 23.0 and `scan.scan1d.stop` keeps the system's 5 |
| `HatchPlugins.BuildEntryPoints` | src/pymodaq_utils/resources/hatch_build_plugins.py:31-49 | the chain of conditionals builds `DeclaredEntryPoints` |
| `HatchPlugins.DeclaredEntryPointsAre` | src/pymodaq_utils/resources/hatch_build_plugins.py:31-49 | a map with the plugins group, the groups that are declared, and only short name to full name in each, is exactly the declared entry points |
| `HatchPlugins.DeclaredEntryPoints` | src/pymodaq_utils/resources/hatch_build_plugins.py:35-49 | `pymodaq.plugins` is always present, and every group maps the short name to `pymodaq_plugins_` plus the short name and nothing else |
| `HatchPlugins.NoFeaturesDeclaresInstruments` | src/pymodaq_utils/resources/hatch_build_plugins.py:46-49 | without a `features` table the groups are exactly `pymodaq.instruments` and `pymodaq.plugins` |
| `HatchPlugins.FeatureDeclaredIff` | src/pymodaq_utils/resources/hatch_build_plugins.py:33-45 | with `features`, a group has an entry point exactly when its flag is present and true |
| `HatchPlugins.NoFeaturesMeansInstruments` | src/pymodaq_utils/resources/hatch_build_plugins.py:46-47 | a missing `features` table acts like `features = {instruments = true}` |
| `HatchPlugins.Metadata.constructor` | src/pymodaq_utils/resources/hatch_build_plugins.py:11 | the dict holds the metadata passed in |
| `HatchPlugins.Written` | src/pymodaq_utils/resources/hatch_build_plugins.py:21-51 | the hook writes exactly the keys `authors`, `name`, `dependencies`, `description`, `urls` and `entry-points` |
| `HatchPlugins.UpdateMetadataFromToml` | src/pymodaq_utils/resources/hatch_build_plugins.py:17-51 | the metadata dict becomes the old one overwritten by the written keys |
| `HatchPlugins.WrittenFields` | src/pymodaq_utils/resources/hatch_build_plugins.py:17-51 | afterwards `name` is `pymodaq_plugins_` plus the short name, `authors` is one name/email record, `dependencies` is `packages-required`, `urls` maps `Homepage`, `Documentation ` and `Repository ` (trailing spaces kept) to the package url, `entry-points` is the declared map, and every other key is unchanged |

## Left out

- The implementation modules `pymodaq_utils.serialize.utils`, `serializer`, `factory` and `mysocket`, and `pymodaq_utils.config`, are not part of this model. Their behaviour is modelled from what the tests assert. Where the tests pin nothing down, the model makes a choice of its own; each such choice is listed below.
- Text is ASCII only: UTF-8 multi-byte characters are not modelled, because `str.encode()` is one byte per character only for ASCII.
- Floats and the two parts of a complex are kept as 64-bit patterns, so their round trips are exact. IEEE arithmetic and `np.allclose` are not modelled. In the configuration, TOML floats are exact reals, and dates are not modelled.
- Codecs.ScalarSerialize: the byte layout of a scalar (a dtype descriptor frame, then a bytes frame holding the little-endian element) is the model's own choice, since no test fixes it; only its round trip and its accepted types are claimed.
- Codecs.NdArraySerialize: the array layout is the model's own choice, since no test fixes it: the 4-byte dimension count, 4 bytes per dimension, a dtype descriptor frame, then the elements' raw little-endian bytes in order, with no length of their own.
- Codecs.ParseDType: the descriptor strings `<i8`, `<f8`, `<c16` and `|b1` are numpy's spellings, chosen by the model; no test fixes them.
- Factory.ApplyDeserializer: a tag that names no registered type fails with `UnknownTag`; the error kind is the model's choice.
- SerUtils.BytesToInt: reads any number of bytes as one big-endian number, as `int.from_bytes` does; only 4-byte input is fixed by the tests.
- Sockets.Socket.CheckSended: the mock's `send` always takes every byte, so the loop's handling of a partial send is never exercised; the model states only what happens on the mock.
- Codecs.EncodeItem: arrays have four element types (int64, float64, complex128 and bool); other numpy dtypes, object arrays and byte orders are not modelled.
- Factory.DefaultSerializes: states serializability only for values whose ints fit int64. Refusing larger ints is the model's choice: numpy would infer `uint64` for ints in [2^63, 2^64) and `object` beyond, neither of which is modelled.
- Truncated or malformed input gives a `TruncatedData`, `UnknownDtype` or `UnicodeDecodeError` error. Python slicing might instead return short data silently; that behaviour is not modelled.
- Real OS sockets (socket_test.py:63-81) are not modelled; only the in-memory mock is. `setsockopt` does nothing in the mock and is left out.
- Sockets.Socket.CheckReceivedLength: the real `Socket` caps each receive at a size that is not part of this model, so the cap is a positive parameter. When `recv` returns nothing before `length` bytes arrive, the model fails with `ConnectionClosed`; on the mock, the Python loop would spin forever instead.
- Sockets.MockPythonSocket.Recv: takes a `nat` length; Python's negative-slice behaviour for a negative length is not modelled.
- The arity error of `str_to_bytes(56, 8)` (ser_utils_test.py:31-32) cannot arise with a typed signature, and is left out.
- File and TOML I/O of the configuration are left out: `get_set_local_dir`, `get_set_config_dir`, `copy_template_config`, `create_toml_from_dict`, `load_system_config_and_update_from_user`'s file reading and `to_dict`. Configurations are in-memory trees, and the loaders appear only as `Merge`.
- `Config.get_children` is left out: its expected keys come from a template file that is not part of this model.
- Config.CheckConfig: fills one level of keys. Recursion into nested tables is not modelled, since the test's dicts are flat.
- Config.BaseConfig.SetItem: the tree is a value, so the aliasing of nested dicts that Python's in-place assignment shares with other references is not modelled.
- Config.Assign: assigning through a missing intermediate key is a KeyError, and the sibling entries along the path are kept (`SetLeavesOthers`). This is the model's choice, following Python dict subscripting; the tests only write into an existing table.
- Config.BaseConfig.SetItem: inherits `Assign`'s handling of a missing intermediate key and of siblings, which no test fixes.
- Config.Lookup: an empty key path is an IndexError, as indexing the first key of an empty tuple would be; the tests always pass at least one key.
- Config.SetPath: an empty key path is an IndexError, for the same reason; the tests always pass at least one key.
- SerUtils.StrLenToBytes: bytes input is passed through unchanged with its length. This is the model's choice; the tests only pass a str.
- Factory.Codec: the codecs form a closed set of five, so `register` can only bind a type name to one of the built-in codecs. It cannot take an arbitrary serialize/deserialize pair, because functions over bytes that the model does not know cannot be given round-trip properties.
- Codecs.ScalarSerialize: an int outside the int64 range is an OverflowError, as numpy's int64 conversion raises; this error kind is the model's choice and no test fixes it.
- Config.Stem: `pathlib` normalisation (trailing slashes, `.` and `..` components, Windows separators) is not modelled; only `/` separates directories.
- Config.Merge: where one side has a table and the other a leaf, the user's entry wins. This is a choice of the model; the tests only cover tables over tables and leaves over leaves.
- HatchPlugins.UpdateMetadataFromToml: takes the parsed record. Loading `plugin_info.toml`, logging and `print` are left out. Missing `plugin-info` keys (a KeyError in Python) cannot occur with the record type. Feature flags are booleans; Python truthiness of other TOML values is not modelled.
- HatchPlugins.Group: the entry-point group keys are a datatype, and `GroupName` gives each one's string (`pymodaq.instruments` and so on).
