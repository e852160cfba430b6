# A model of the Counter-Strike 1.6 client

The modules here model the parts of the client that compute something by themselves, and prove what those
parts are for. One module stands for one component:

- `CodePoints`, `Encoders`, `Decoders`, `Transcoder`, `Conversions`, `Validation`, `Repair`, `Cesu8`, `StripText`:
  the text converter. Buffers are arrays of units, with a zero behind the text; the decoders read them
  as the source does, and each is proved equal to a function on the text alone. The generic converter is one
  method for all six conversions and for the repair, where input and output are the same buffer. Bytes, 16-bit
  and 32-bit units are integers below their limit; shifts, masks and `|` are written with `/`, `%` and `+`, and
  the 32-bit subtractions wrap around.
- `TempEntities`: the linked lists of temporary entities, with their real links.
- `StudioTracks`, `BoneTransforms` (with `Vectors`): reading compressed animation tracks, and posing bones.
- `ViewRing`: the ring of 64 positions behind view smoothing, against the whole history.
- `WeaponMenu`: the weapon grid and the keys that walk through it.
- `KeyButtons`: button state, against sets of held keys.
- `ChatLines`, `LocalizeFormat`, `Angles`: scrolling chat, formatting localized text, turning an angle.

Floating-point numbers are reals throughout. The clock, console variables, sines and cosines, and the C
library's idea of a space are parameters.

The proofs brought out some behaviour that the comments and names in the source do not lead one to expect. In
each case the model follows the code, and a lemma says exactly when it happens:

- The 16-bit decoder tests only one end of the surrogate ranges. A high surrogate followed by a unit below the
  low surrogates is not rejected (`Utf16TestsOneEnd`, `Utf16AcceptsBrokenPair`); a text is read as it should be
  iff it has none (`FollowedHighsExactly`). On a text that ends in an odd number of high surrogates, and on no
  other, the decoder steps over the terminator (`StaysInsideExactly`, `LoneHighStepsOut`).
- "UTF-32" output is UTF-16 with each unit in a wider slot (`Utf32OutputIsWidenedUtf16`): one code point per slot
  only below U+10000 (`Utf32IsOnePerSlot`).
- A name from which something unprintable is stripped keeps its trailing space (`CleanWhenStripped`,
  `TrailingSpaceStays`), and a name of one byte is never rewritten (`StripUnprintableAndSpace`).
- The position reader does not blend at the last frame of a run whose frames are all stored; the rotation reader
  does (`SeamMatters`, `SeamExample`). A run that stores more values than it has frames holds both readers at its
  first two values (`OverfullRunFreezes`).
- From a weapon in the row behind the menu's last one, the next key passes over the first positions of the first row
  (`NextFromExtraRow`, `NextCanMissAll`).
- A third key on a button is ignored, also after one of the first two is released (`SlotsHoldTheKeys`,
  `ThirdKeyIsLost`).
- The comment on the button sample lists four of its five values (`SampleOfHistory`).

## Model

| member | source | states |
|---|---|---|
| CodePoints.IsValidUChar32 | vcs16/cl_dll/unicode_strtools.cpp:38-43 | the wrapping tests accept exactly the code points up to 10FFFF that are neither surrogates nor noncharacters |
| CodePoints.UnitWidth | vcs16/cl_dll/unicode_strtools.cpp:107-112 | a unit of each form takes on as many values as its bytes do |
| CodePoints.WholeUnits | vcs16/cl_dll/unicode_strtools.cpp:112 | so many units fit in a buffer iff they do and one more does not |
| Encoders.EncodedLength | vcs16/cl_dll/unicode_strtools.cpp:171-186 | the length announced is the length of the encoding, for every 32-bit value |
| Encoders.UChar32ToUtf8 | vcs16/cl_dll/unicode_strtools.cpp:205-233 | writes the one to four bytes of the encoding of any 32-bit value and nothing else |
| Encoders.UChar32ToPairs | vcs16/cl_dll/unicode_strtools.cpp:83-96 | writes the unit or pair and nothing else, in 16-bit slots and in 32-bit slots; only what is no code point loses bits in the former |
| Encoders.MarkedBits | vcs16/cl_dll/unicode_strtools.cpp:92-93 | the first half of a pair, for any value: the bits of the mark are set, all others kept |
| Encoders.LowBitsInBytes | vcs16/cl_dll/unicode_strtools.cpp:226-231 | of a number above the code points the bytes keep the low 21 bits |
| Encoders.LowBitsInUnits | vcs16/cl_dll/unicode_strtools.cpp:198-199 | ... and 16-bit units the low 16 bits of each half |
| Encoders.UChar32ToUnits | vcs16/cl_dll/unicode_strtools.cpp:99-106 | the encoder that goes with each output form |
| Encoders.Utf32IsWidenedUtf16 | vcs16/cl_dll/unicode_strtools.cpp:83-96 | the 32-bit encoding of any code points is their 16-bit encoding, and all its units fit in 16 bits |
| Encoders.Utf32IsOnePerSlot | vcs16/cl_dll/unicode_strtools.cpp:83-96 | the 32-bit encoding has one code point per slot iff none is above FFFF |
| Decoders.DecodeUtf8 | vcs16/cl_dll/unicode_strtools.cpp:305-374 | any non-empty bytes: takes 1, 2, 3, 4 or 6 of them, never the terminator; re-encoding needs no more units than were taken |
| Decoders.UTF8ToUChar32 | vcs16/cl_dll/unicode_strtools.cpp:305-374 | the bit tests and jumps decode what the function by cases on the bytes says, and look at no byte behind the terminator |
| Decoders.BytesTaken | vcs16/cl_dll/unicode_strtools.cpp:305-374 | how many bytes a character takes, good or bad: what the lead announces, or up to the first byte that does not continue it, which is never taken |
| Decoders.GoodExactly | vcs16/cl_dll/unicode_strtools.cpp:305-362 | a character is good iff the bytes start with the encoding of a valid code point |
| Decoders.GoodPairExactly | vcs16/cl_dll/unicode_strtools.cpp:364-373 | ... or with a pair of surrogates that stands for one |
| Decoders.MaybeCESU8 | vcs16/cl_dll/unicode_strtools.cpp:364-373 | six bytes are taken exactly when two three-byte surrogates form a pair |
| Decoders.UTF16ToUChar32 | vcs16/cl_dll/unicode_strtools.cpp:236-264 | decodes as the signed subtractions have it |
| Decoders.UTF32ToUChar32 | vcs16/cl_dll/unicode_strtools.cpp:46-74 | decodes as the unsigned subtractions have it |
| Decoders.Utf32Exactly | vcs16/cl_dll/unicode_strtools.cpp:46-74 | two units are taken iff they are a pair; what is good, and as which code point |
| Decoders.ToUChar32 | vcs16/cl_dll/unicode_strtools.cpp:99-107 | the decoder that goes with each input form |
| Decoders.NeverLonger | vcs16/cl_dll/unicode_strtools.cpp:118-124 | what one character adds to the output, '?' included, is no longer than what it took from the input |
| Decoders.DecodeEncode | vcs16/cl_dll/unicode_strtools.cpp:189-374 | in each form, decoding undoes encoding, whatever follows |
| Decoders.EncodeDecode | vcs16/cl_dll/unicode_strtools.cpp:205-374 | encoding undoes decoding of every accepted byte sequence but the 6-byte ones, so no overlong form is accepted |
| Decoders.SixBytesAreSurrogates | vcs16/cl_dll/unicode_strtools.cpp:302-373 | a 6-byte character is the two surrogates of its code point, each encoded in three bytes |
| Decoders.PairIsSixBytes | vcs16/cl_dll/unicode_strtools.cpp:302-373 | every pair of surrogates so encoded is read as one 6-byte character, the code point it stands for |
| Decoders.Utf16TestsOneEnd | vcs16/cl_dll/unicode_strtools.cpp:244-252 | the 16-bit decoder agrees with the 32-bit one on 16-bit units iff no high surrogate is followed by a unit below the low ones |
| Decoders.BrokenPairExactly | vcs16/cl_dll/unicode_strtools.cpp:250-262 | what a broken pair is read as |
| Decoders.Utf16AcceptsBrokenPair | vcs16/cl_dll/unicode_strtools.cpp:244-252 | a broken pair that is accepted as one code point |
| Transcoder.OtherFormsStayInside | vcs16/cl_dll/unicode_strtools.cpp:116-120 | reading bytes or 32-bit units never steps over the terminator |
| Transcoder.StaysInsideExactly | vcs16/cl_dll/unicode_strtools.cpp:236-264 | reading 16-bit units stays inside iff the number of high surrogates at the end is even |
| Transcoder.LoneHighStepsOut | vcs16/cl_dll/unicode_strtools.cpp:244-262 | a text on which the decoder steps over the terminator |
| Transcoder.FollowedHighsExactly | vcs16/cl_dll/unicode_strtools.cpp:236-264 | the 16-bit decoder stays inside and finds what the 32-bit one finds iff no high surrogate is followed by a unit below the low ones |
| Transcoder.PolicyCases | vcs16/cl_dll/unicode_strtools.cpp:125-137 | the policy words come to three cases, skip before fail |
| Transcoder.RoomExactly | vcs16/cl_dll/unicode_strtools.cpp:112-123 | a text has room iff it fits together with its terminator |
| Transcoder.ReplaceOneForOne | vcs16/cl_dll/unicode_strtools.cpp:120-133 | replacing gives one code point for each character, '?' for a bad one |
| Transcoder.SkipKeepsGood | vcs16/cl_dll/unicode_strtools.cpp:125-130 | skipping gives what the good characters alone give |
| Transcoder.ConvertOne | vcs16/cl_dll/unicode_strtools.cpp:118-137 | one turn of the loop takes one character and leaves the rest of the conversion as it should be, also in place |
| Transcoder.ConvertT | vcs16/cl_dll/unicode_strtools.cpp:107-140 | the output is that of converting the original text, also when it is the input buffer; the byte count, the terminator, the untouched rest, the failing case |
| Conversions.ConvertedStops | vcs16/cl_dll/unicode_strtools.cpp:116-140 | without the fail policy the output is the characters before the first one without room, for any input |
| Conversions.LongestPrefix | vcs16/cl_dll/unicode_strtools.cpp:107-140 | with the replace policy it is the longest prefix of whole characters that fits |
| Conversions.FailsExactly | vcs16/cl_dll/unicode_strtools.cpp:125-137 | with the fail policy it fails iff a bad character is reached with room for it and all before it; otherwise it replaces nothing |
| Conversions.CharactersOfEncoding | vcs16/cl_dll/unicode_strtools.cpp:116-120 | an encoded text is read character by character as it was encoded, in each form |
| Conversions.ConvertEncoded | vcs16/cl_dll/unicode_strtools.cpp:266-300 | all six conversions take the encoding of any code points to their encoding, if it fits |
| Conversions.EncodeAllInjective | vcs16/cl_dll/unicode_strtools.cpp:205-233 | the code points of a valid text are unique |
| Conversions.RoundTrip | vcs16/cl_dll/unicode_strtools.cpp:266-294 | valid bytes to 16-bit or 32-bit units and back are the same bytes, with buffers of the original size |
| Conversions.NoFormIsLonger | vcs16/cl_dll/unicode_strtools.cpp:171-186 | no form takes more units than the bytes |
| Conversions.Utf32OutputIsWidenedUtf16 | vcs16/cl_dll/unicode_strtools.cpp:266-288 | for any input, bound and policy the 32-bit output is the 16-bit output widened |
| Conversions.BytesNeverGrow | vcs16/cl_dll/unicode_strtools.cpp:107-140 | no conversion of bytes, valid or not, takes more units than there were bytes |
| Conversions.NothingCutOff | vcs16/cl_dll/unicode_strtools.cpp:107-140 | with room for as many units as bytes nothing is cut off |
| Validation.ValidByCharacter | vcs16/cl_dll/unicode_strtools.cpp:383-393 | a text is an encoding iff its first character is good, is not a 6-byte one, and the rest is an encoding |
| Validation.UnicodeValidate | vcs16/cl_dll/unicode_strtools.cpp:380-394 | accepts exactly the encodings of valid code points |
| Validation.ValidAfterValid | vcs16/cl_dll/unicode_strtools.cpp:380-394 | what follows a valid prefix decides |
| Validation.OnlyShortestSpellings | vcs16/cl_dll/unicode_strtools.cpp:305-394 | anywhere in a text, a number spelled in n bytes, zero in two or more among them, is accepted iff it is valid and n is its shortest spelling: no overlong forms, no surrogates |
| Validation.UnicodeLength | vcs16/cl_dll/unicode_strtools.cpp:397-412 | the number of characters, good or bad; it always ends |
| Validation.UnicodeAdvance | vcs16/cl_dll/unicode_strtools.cpp:415-427 | where the text stands after skipping so many characters |
| Validation.LengthOfAdvanced | vcs16/cl_dll/unicode_strtools.cpp:397-427 | skipping n characters leaves exactly the others, or none |
| Validation.AdvanceTwice | vcs16/cl_dll/unicode_strtools.cpp:415-427 | skipping in two steps is skipping in one |
| Repair.UnicodeRepair | vcs16/cl_dll/unicode_strtools.cpp:668-671 | in one buffer of unknown size, the bytes are those of repairing a separate copy |
| Repair.RepairIsValid | vcs16/cl_dll/unicode_strtools.cpp:668-671 | the repaired text is valid and no longer than the original |
| Repair.RepairKeepsTheGood | vcs16/cl_dll/unicode_strtools.cpp:668-671 | exactly the good characters are kept, in order |
| Repair.RepairKeepsAscii | vcs16/cl_dll/unicode_strtools.cpp:668-671 | the ASCII characters of any bytes are all kept, in order: nothing broken takes one with it |
| Repair.RepairFixes | vcs16/cl_dll/unicode_strtools.cpp:668-671 | a text is left alone iff it is valid and at most 65534 bytes long |
| Repair.RepairIdempotent | vcs16/cl_dll/unicode_strtools.cpp:668-671 | repairing twice is repairing once |
| Cesu8.DecodeCesu | vcs16/cl_dll/unicode_strtools.cpp:302-373 | a code point spelled as two three-byte surrogates is read as itself, whatever follows |
| Cesu8.CharactersOfCesu | vcs16/cl_dll/unicode_strtools.cpp:302-373 | a text so spelled is read back code point by code point, without an error |
| Cesu8.ConvertCesu | vcs16/cl_dll/unicode_strtools.cpp:266-276 | and converted to the encoding of the same code points in any form |
| Cesu8.RepairCesu | vcs16/cl_dll/unicode_strtools.cpp:668-671 | the repair turns it into proper bytes, iff these fit |
| Cesu8.ValidCesu | vcs16/cl_dll/unicode_strtools.cpp:386-390 | the validator accepts it iff no code point is above FFFF |
| StripText.StripUnprintableWorker | vcs16/cl_dll/unicode_strtools.cpp:612-632 | an in-place filter, and whether it removed anything |
| StripText.UnprintableExactly | vcs16/cl_dll/unicode_strtools.cpp:550-572 | which units are removed, the test of line 621 included |
| StripText.MeanSpacesExactly | vcs16/cl_dll/unicode_strtools.cpp:512-547 | which units count as trailing spaces besides those of the C library |
| StripText.StripWhitespaceWorker | vcs16/cl_dll/unicode_strtools.cpp:583-609 | trims the end in place and steps over the spaces in front, for any length it is given |
| StripText.StripUnits | vcs16/cl_dll/unicode_strtools.cpp:646-648 | both workers one after the other, on the length taken before the first |
| StripText.StrippedUnits | vcs16/cl_dll/unicode_strtools.cpp:646-652 | stripping the 16-bit units is stripping the code points: pairs stay whole |
| StripText.StrippedIsMiddle | vcs16/cl_dll/unicode_strtools.cpp:583-632 | what is left is the printable text without spaces around it, and no space in front |
| StripText.StrippedIsShorter | vcs16/cl_dll/unicode_strtools.cpp:649-653 | if anything was stripped, the way back has room for the terminator |
| StripText.StripUnprintableAndSpace | vcs16/cl_dll/unicode_strtools.cpp:635-657 | the name afterwards, for any bytes: neither conversion cuts anything off |
| StripText.CleanWhenPrintable | vcs16/cl_dll/unicode_strtools.cpp:646-648 | no trailing space is left when nothing unprintable was removed |
| StripText.CleanWhenStripped | vcs16/cl_dll/unicode_strtools.cpp:646-648 | when something was, the end is clean iff it was before or only spaces are left |
| StripText.TrailingSpaceStays | vcs16/cl_dll/unicode_strtools.cpp:646-648 | a name that keeps its trailing space |
| TempEntities.TempEntLists.IsActive | vcs16/cl_dll/entity.cpp:454-471 | the survival test, with the fading it does on the way |
| TempEntities.SurvivesExactly | vcs16/cl_dll/entity.cpp:454-471 | an entity lives until its time; a fading one lives on exactly while one whole unit of its amount is left, the others do not |
| TempEntities.FadedExactly | vcs16/cl_dll/entity.cpp:458-464 | what the test changes, in which entities |
| TempEntities.DeadStaysDead | vcs16/cl_dll/entity.cpp:456-471 | an entity that fails the test fails it at every later time |
| TempEntities.TempEntLists.PushFree | vcs16/cl_dll/entity.cpp:474-475 | the free list grows at its head |
| TempEntities.TempEntLists.Bypass | vcs16/cl_dll/entity.cpp:476-479 | the active list leads past the entity, at the head or behind another |
| TempEntities.TempEntLists.Kill | vcs16/cl_dll/entity.cpp:472-480 | an entity changes lists; both stay acyclic and disjoint |
| TempEntities.TempEntLists.UpdateOne | vcs16/cl_dll/entity.cpp:450-484 | one turn of the loop |
| TempEntities.TempEntLists.Simulation | vcs16/cl_dll/entity.cpp:445-776 | the survivors stay in order; the killed are pushed in reverse order on the free list |
| TempEntities.TempEntLists.HUD_TempEntUpdate | vcs16/cl_dll/entity.cpp:410-483 | the same for the whole pass, with each entity active or free afterwards by its time, flag and amount; a paused pass changes nothing |
| TempEntities.Cut | vcs16/cl_dll/entity.cpp:450-480 | a chain of links can be cut and joined anywhere |
| TempEntities.PassConserves | vcs16/cl_dll/entity.cpp:472-484 | survivors and killed together are the old active list |
| TempEntities.PassesConserve | vcs16/cl_dll/entity.cpp:472-484 | over any run of passes no entity is lost or gained |
| TempEntities.RunPasses | vcs16/cl_dll/entity.cpp:410-484 | calling the update any number of times, paused or not, gives the two lists of such a run, with every entity still in one of them |
| TempEntities.FilterMembers | vcs16/cl_dll/entity.cpp:472-484 | exactly the survivors stay |
| TempEntities.FilterOrder | vcs16/cl_dll/entity.cpp:472-484 | the order of survivors and the opposite order of the killed |
| StudioTracks.HeaderCounts | vcs16/engine/studio.h:242-250 | the two byte counts share the cell with a signed value |
| StudioTracks.Skip | vcs16/cl_dll/StudioModelRenderer.cpp:181-194 | for runs with any counts, the skipping loop ends where a walk over the runs ends |
| StudioTracks.ReadRotation | vcs16/cl_dll/StudioModelRenderer.cpp:181-220 | in every branch and for any counts, the pair of values there |
| StudioTracks.PairIsExpanded | vcs16/cl_dll/StudioModelRenderer.cpp:181-220 | of proper runs, that pair is the values of the track written out, at the frame and the next |
| StudioTracks.OverfullRunFreezes | vcs16/cl_dll/StudioModelRenderer.cpp:184-193 | a run with more values than frames gives its first two values for every frame from there on |
| StudioTracks.EmptyRunRestarts | vcs16/cl_dll/StudioModelRenderer.cpp:184-193 | one without frames sends the reader to the start of the next run |
| StudioTracks.ReadPosition | vcs16/cl_dll/StudioModelRenderer.cpp:256-284 | the same pair blended, but held at a seam |
| StudioTracks.BlendIsLinear | vcs16/cl_dll/StudioModelRenderer.cpp:274 | the blend is a part of the way from one value to the other |
| StudioTracks.SeamsExactly | vcs16/cl_dll/StudioModelRenderer.cpp:271-277 | in the track written out, the seams are the last frames of the runs that store as many values as they have frames |
| StudioTracks.SeamMatters | vcs16/cl_dll/StudioModelRenderer.cpp:271-284 | the reading is the linear blend iff the frame is no seam, or there is nothing to blend |
| StudioTracks.SeamExample | vcs16/cl_dll/StudioModelRenderer.cpp:271-277 | a track in memory whose position reads 0 where halfway is 5 |
| StudioTracks.PoseExactly | vcs16/cl_dll/StudioModelRenderer.cpp:222-230 | a rotation channel is its rest plus the value of the track written out times the scale, plus the controller, at the frame and at the next |
| StudioTracks.PositionExactly | vcs16/cl_dll/StudioModelRenderer.cpp:252-288 | a position channel likewise, blended or at a seam held |
| StudioTracks.CalcAngles | vcs16/cl_dll/StudioModelRenderer.cpp:175-230 | one rotation channel, as written out |
| StudioTracks.CalcBoneAngles | vcs16/cl_dll/StudioModelRenderer.cpp:173-231 | the three rotation channels at both frames, as written out |
| StudioTracks.CalcBonePosition | vcs16/cl_dll/StudioModelRenderer.cpp:245-290 | the three position channels, with controllers or without, as written out |
| BoneTransforms.ConcatTransforms | vcs16/cl_dll/studio_util.cpp:73-87 | writes the product of the two matrices |
| BoneTransforms.ConcatComposes | vcs16/cl_dll/studio_util.cpp:73-87 | the product does what its second factor does and then its first |
| BoneTransforms.ConcatAssociative | vcs16/cl_dll/studio_util.cpp:73-87 | products along a chain need no brackets |
| BoneTransforms.ConcatRigid | vcs16/cl_dll/studio_util.cpp:73-87 | products of rigid matrices are rigid |
| BoneTransforms.RigidKeepsDistance | vcs16/cl_dll/studio_util.cpp:73-87 | a rigid matrix keeps all distances |
| BoneTransforms.QuaternionMatrix | vcs16/cl_dll/studio_util.cpp:197-210 | writes the rotation and leaves the last column alone |
| BoneTransforms.MatrixCopy | vcs16/cl_dll/StudioModelRenderer.cpp:722 | copies a matrix |
| BoneTransforms.MatrixTurnsAsQuaternion | vcs16/cl_dll/studio_util.cpp:197-210 | the matrix of a unit quaternion q takes v to the Hamilton product q v q* |
| BoneTransforms.UnitQuaternionRigid | vcs16/cl_dll/studio_util.cpp:197-210 | the matrix of a unit quaternion is rigid |
| BoneTransforms.AnglesInTurn | vcs16/cl_dll/studio_util.cpp:120-123 | the quaternion of three angles is the product of a turn about each axis, the first axis first |
| BoneTransforms.AngleQuaternionUnit | vcs16/cl_dll/studio_util.cpp:96-124 | ... and has unit length |
| BoneTransforms.MirroredRigid | vcs16/cl_dll/StudioModelRenderer.cpp:713-719 | the right-hand mirror is rigid |
| BoneTransforms.MirroredNegates | vcs16/cl_dll/StudioModelRenderer.cpp:715-718 | the mirror negates the second coordinate of every vertex |
| BoneTransforms.MirrorsWholeModel | vcs16/cl_dll/StudioModelRenderer.cpp:708-736 | mirroring the root bones reflects the whole model, each bone once |
| BoneTransforms.LocalMatrix | vcs16/cl_dll/StudioModelRenderer.cpp:702-719 | fills the buffer with the local matrix of a bone |
| BoneTransforms.SetupBone | vcs16/cl_dll/StudioModelRenderer.cpp:708-736 | one bone, hung on its parent or on the model |
| BoneTransforms.SetupBones | vcs16/cl_dll/StudioModelRenderer.cpp:700-737 | every matrix written is the product along the parent chain, for bones and lighting |
| BoneTransforms.PosedFollowsParents | vcs16/cl_dll/StudioModelRenderer.cpp:708-736 | applying it is applying the local matrices one after the other up the chain |
| BoneTransforms.PosedRigid | vcs16/cl_dll/StudioModelRenderer.cpp:708-736 | rigid parts make a rigid pose |
| BoneTransforms.VerticesStayRigid | vcs16/cl_dll/StudioModelRenderer.cpp:700-737 | with unit quaternions and a rigid root every bone keeps the distances of its vertices, mirrored or not |
| ViewRing.ViewInterp.constructor | vcs16/cl_dll/view.cpp:529-539 | the empty ring stands for the empty history |
| ViewRing.ViewInterp.Record | vcs16/cl_dll/view.cpp:1029-1041 | the ring and the history grow together, only when the position changed |
| ViewRing.ViewInterp.Lookup | vcs16/cl_dll/view.cpp:1059-1064 | the scan of the ring finds what a scan of the history finds; unfilled slots are recognized |
| ViewRing.ViewInterp.Smooth | vcs16/cl_dll/view.cpp:1047-1094 | the position moved to is the one the whole history gives; player, eye and weapon move together |
| ViewRing.MovedTogether | vcs16/cl_dll/view.cpp:1085-1089 | the eye and the weapon keep their places relative to the player |
| ViewRing.FirstRecorded | vcs16/cl_dll/view.cpp:1029-1041 | the first position is recorded unless it is the origin of the map |
| Vectors.DistanceByComponents | vcs16/cl_dll/view.cpp:1083 | the squared length compared, by components |
| ViewRing.SlotsDiffer | vcs16/cl_dll/view.cpp:526-527 | 64 consecutive entries have slots of their own |
| ViewRing.ScanFindsNewest | vcs16/cl_dll/view.cpp:1059-1064 | an entry is found iff it is the newest scanned one no later than the target time |
| ViewRing.ScanFindsNothing | vcs16/cl_dll/view.cpp:1059-1064 | nothing is found iff all scanned entries are later |
| ViewRing.FractionInRange | vcs16/cl_dll/view.cpp:1074-1078 | the fraction is in [0, 1] and is the part of the time passed |
| ViewRing.SmoothedOnSegment | vcs16/cl_dll/view.cpp:1066-1092 | the new position is on the segment, under 64 units long, between two consecutive entries |
| ViewRing.NeverExtrapolates | vcs16/cl_dll/view.cpp:1059-1080 | the target time is between those entries, or the position is the last one |
| ViewRing.HistoryForward | vcs16/cl_dll/view.cpp:1029-1041 | over any run of frames the history keeps the order of time, and each entry differs from the one before |
| ViewRing.HistoryExactly | vcs16/cl_dll/view.cpp:1029-1041 | a frame is added as it is, iff its position is not that of the frame before |
| ViewRing.SmoothedExactly | vcs16/cl_dll/view.cpp:1059-1092 | for any history, the view is smoothed iff the newest scanned entry that is old enough has a time other than zero and the one after it is later and near |
| ViewRing.ForwardEntriesJoin | vcs16/cl_dll/view.cpp:1066-1083 | while the time of the frames runs on, only the distance decides |
| ViewRing.RecordAll | vcs16/cl_dll/view.cpp:1029-1041 | calling the recording on any run of frames fills the ring with their history |
| WeaponMenu.WeaponsResource.constructor | vcs16/cl_dll/ammohistory.h:39-44 | the grid starts empty |
| WeaponMenu.WeaponsResource.PickupWeapon | vcs16/cl_dll/ammohistory.h:61-64 | fills the weapon's own cell and no other |
| WeaponMenu.WeaponsResource.DropWeapon | vcs16/cl_dll/ammohistory.h:72-75 | empties the weapon's own cell and no other |
| WeaponMenu.WeaponsResource.GetFirstPos | vcs16/cl_dll/ammo.cpp:206-220 | the first weapon of a row, or none if the row is empty |
| WeaponMenu.WeaponsResource.GetNextActivePos | vcs16/cl_dll/ammo.cpp:223-234 | the next weapon of a row that has ammunition, or none if there is none |
| WeaponMenu.WeaponsResource.AtHomeWellPlaced | vcs16/cl_dll/ammohistory.h:61-75 | weapons that are picked up and dropped sit where the walk expects them |
| WeaponMenu.CHudAmmo.UserCmd_NextWeapon | vcs16/cl_dll/ammo.cpp:904-942 | the nested loops select the first weapon ahead, or after wrapping around |
| WeaponMenu.CHudAmmo.UserCmd_PrevWeapon | vcs16/cl_dll/ammo.cpp:945-983 | the same backwards |
| WeaponMenu.NextRank | vcs16/cl_dll/ammo.cpp:920-939 | the next weapon is the next in rank among the occupied cells, round and round |
| WeaponMenu.PrevRank | vcs16/cl_dll/ammo.cpp:961-980 | the previous weapon is the previous in rank |
| WeaponMenu.NextAndBack | vcs16/cl_dll/ammo.cpp:904-983 | on cells, each key undoes the other |
| WeaponMenu.CyclesThroughAll | vcs16/cl_dll/ammo.cpp:904-942 | n presses pass each of the n occupied cells exactly once and end at the start |
| WeaponMenu.KeysFollowTheCycle | vcs16/cl_dll/ammo.cpp:904-983 | from a weapon of the menu the selections follow that cycle |
| WeaponMenu.KeysUndoEachOther | vcs16/cl_dll/ammo.cpp:904-983 | on selections, each key undoes the other |
| WeaponMenu.SelectionRank | vcs16/cl_dll/ammo.cpp:904-983 | the keys select the neighbours in rank |
| WeaponMenu.FromNothing | vcs16/cl_dll/ammo.cpp:912-980 | with nothing to go on from, the first weapon of the menu and the last |
| WeaponMenu.KeysCycleThroughMenu | vcs16/cl_dll/ammo.cpp:904-942 | n presses select each of the n weapons once and end with the first |
| WeaponMenu.CHudAmmo.PressNext | vcs16/cl_dll/ammo.cpp:904-942 | calling the next key any number of times follows that cycle, and after as many calls as weapons the selection is the old one |
| WeaponMenu.CHudAmmo.NextFromHands | vcs16/cl_dll/ammo.cpp:909-918 | with nothing chosen, the next key goes on from the weapon in the hands |
| WeaponMenu.NextFromExtraRow | vcs16/cl_dll/ammo.cpp:912-939 | from the row behind the menu's last, the first weapon comes iff the positions passed over are empty |
| WeaponMenu.NextCanMissAll | vcs16/cl_dll/ammo.cpp:912-939 | a grid with a weapon in the menu and the selected one in its own cell behind it, from which nothing is selected |
| KeyButtons.KButton.KeyDown | vcs16/cl_dll/input.cpp:293-320 | slots and bits follow the set of held keys: a repeated key and a third one change nothing |
| KeyButtons.KButton.KeyUp | vcs16/cl_dll/input.cpp:327-359 | ... and releasing the last key is an edge |
| KeyButtons.KButton.Unstick | vcs16/cl_dll/input.cpp:335-340 | a release typed without a key number |
| KeyButtons.KButton.KeyState | vcs16/cl_dll/input.cpp:539-584 | the sampled value, and the edges forgotten |
| KeyButtons.Perform | vcs16/cl_dll/input.cpp:293-584 | each event on a button is the step of its abstract value |
| KeyButtons.Play | vcs16/cl_dll/input.cpp:293-584 | any run of calls is the run of those steps |
| KeyButtons.EdgesRecorded | vcs16/cl_dll/input.cpp:81-83 | over any run of key events, bit 0 is the level and bits 1 and 2 record edges of the level |
| KeyButtons.SampleOfHistory | vcs16/cl_dll/input.cpp:529-584 | each of the five values iff the level since the last sample went as it says |
| KeyButtons.ValueWhenUp | vcs16/cl_dll/input.cpp:548-577 | a button that is up counts for nothing, or a quarter if it went down and up |
| KeyButtons.HeldKeys | vcs16/cl_dll/input.cpp:304-315 | at most two keys hold a button, over any run |
| KeyButtons.SlotsHoldTheKeys | vcs16/cl_dll/input.cpp:304-315 | the slots hold the keys that are down, all along a run, iff never more than two are down at once |
| KeyButtons.NothingInvented | vcs16/cl_dll/input.cpp:293-359 | over any run a button holds no key that is up |
| KeyButtons.ThirdKeyIsLost | vcs16/cl_dll/input.cpp:311-315 | a run after which the button is up and a key is still down |
| Angles.AngleModNormal | vcs16/cl_dll/environment.cpp:40-46 | the angle of the same direction in [0, 360) |
| Angles.SameAngleIffMod | vcs16/cl_dll/environment.cpp:40-46 | two angles have the same direction iff they are reduced to the same angle |
| Angles.DistanceIsLeast | vcs16/cl_dll/environment.cpp:53-61 | the shorter arc is the least difference over all full turns |
| Angles.ApproachShortens | vcs16/cl_dll/environment.cpp:48-71 | one call shortens the arc by the speed, or closes it, and goes exactly as far from the old angle: it never overshoots |
| Angles.StaysBetween | vcs16/cl_dll/environment.cpp:58-68 | zero is crossed only if that way is the shorter one |
| Angles.IteratedDistance | vcs16/cl_dll/environment.cpp:48-71 | the arc left after n calls |
| Angles.ReachedExactly | vcs16/cl_dll/environment.cpp:48-71 | the target is reached after n calls iff n is at least the arc divided by the speed, rounded up |
| ChatLines.SayText.constructor | vcs16/cl_dll/saytext.cpp:126-138 | the state in which chat starts |
| ChatLines.SayText.SetLineState | vcs16/cl_dll/saytext.cpp:96-102 | one line's four arrays set, the others unchanged |
| ChatLines.SayText.ShiftRows | vcs16/cl_dll/saytext.cpp:148-159 | all seven arrays move up together, and the last line is cleared |
| ChatLines.SayText.ScrollTextUp | vcs16/cl_dll/saytext.cpp:146-168 | a message leaves with its continuations, the count returned is theirs, and all seven arrays have moved by it |
| ChatLines.MoveUp | vcs16/cl_dll/saytext.cpp:149-155 | one array moved up by one row |
| ChatLines.ScrollOnceMore | vcs16/cl_dll/saytext.cpp:161-167 | the recursion removes one continuation at a time |
| ChatLines.RowsMovedUp | vcs16/cl_dll/saytext.cpp:148-167 | every line below the message is where it was, less the rows of the message |
| ChatLines.RowsLeftEmpty | vcs16/cl_dll/saytext.cpp:156-159 | the rows left over are empty |
| ChatLines.ContinuesExactly | vcs16/cl_dll/saytext.cpp:161 | a line continues the one above iff its first character is a space |
| ChatLines.FirstLineBegins | vcs16/cl_dll/saytext.cpp:161-167 | the first line left begins a message |
| LocalizeFormat.ParseIsLossless | vcs16/cl_dll/vgui_parser.cpp:305-330 | the pieces of a format spell it out again |
| LocalizeFormat.OthersPassThrough | vcs16/cl_dll/vgui_parser.cpp:329 | every other use of the percent sign is copied, wherever it stands between substitutions |
| LocalizeFormat.PieceByPiece | vcs16/cl_dll/vgui_parser.cpp:305-330 | substituted text is never scanned again, and only bare pieces take the arguments in turn |
| LocalizeFormat.ParseAtPercent | vcs16/cl_dll/vgui_parser.cpp:305-330 | what comes before a percent sign is parsed as if the format ended there |
| LocalizeFormat.NumberedInPlace | vcs16/cl_dll/vgui_parser.cpp:307-315 | wherever %s1 to %s9 stands, the argument of that number comes in its place, or nothing |
| LocalizeFormat.BareInPlace | vcs16/cl_dll/vgui_parser.cpp:318-326 | a bare %s takes the argument numbered by the bare ones before it |
| LocalizeFormat.Append | vcs16/cl_dll/vgui_parser.cpp:311-312 | an argument is copied as far as it fits |
| LocalizeFormat.FormatInto | vcs16/cl_dll/vgui_parser.cpp:300-330 | the first dstsize-1 characters of the full substitution |
| LocalizeFormat.Localize_Format | vcs16/cl_dll/vgui_parser.cpp:289-334 | the same, terminated, with its length; null pointers and an empty buffer |

## Left out

- Transcoder.ConvertT: the branch for a null output, which counts nothing, and negative buffer sizes.
- Transcoder.ConvertT: 16-bit input that ends in an odd number of high surrogates, where the decoder reads what lies behind the terminator.
- StripText.StripUnprintableAndSpace: the empty name, for which the fresh buffer is read without having been written, and allocation failure.
- StripText.StripWhitespaceWorker: which units are spaces is a parameter; zero and the surrogates are not.
- TempEntities.TempEntLists.Simulation: movement, collisions, animation, drawing and callbacks change an entity in any way but leave the links alone, and the other entities.
- TempEntities.TempEntLists.IsActive: the amount of fading is a whole number of any size.
- StudioTracks.Skip: frames for which a reader runs out of runs, or needs a value from a run behind that stores none.
- StudioTracks.CalcBoneAngles: interpolating the two rotations (spherical interpolation).
- BoneTransforms.SetupBones: render effects on root bones, blending of sequences and gaits; which matrices the model hangs on is given.
- BoneTransforms.AngleQuaternionUnit: sines and cosines are parameters with squares that sum to one.
- ViewRing.ViewInterp.Record: overflow of the counter of positions.
- ViewRing.ViewInterp.Smooth: the sway of the weapon between recording and smoothing.
- WeaponMenu.CHudAmmo.UserCmd_NextWeapon: whether the display is hidden is a parameter; weapons are values, so that registering another weapon under the same number is not modelled.
- WeaponMenu.WeaponsResource.GetNextActivePos: which weapons have ammunition is a parameter.
- KeyButtons.KButton.KeyDown: the debugging line for a third key, and how the key number is read.
- KeyButtons.EdgesRecorded: the release without a key number and the commands that set bits directly, which are no key events.
- ChatLines.SayText.ScrollTextUp: the length of a line's buffer; wrapping long lines to the width of the screen.
- LocalizeFormat.Localize_Format: looking up the string to format.
- Rounding of floating-point numbers, everywhere.
- Everything behind engine calls: sprites, traces, sounds, console variables, messages and drawing.
- Token parsing of wide strings, selecting a slot by number, ammunition counts, weather, spectator views, menus and the crash handler.
