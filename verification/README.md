# A model of the remoting layer of the policy enforcement point

The policy enforcement point is split in two: a light side inside the web server and a daemon
that talks to the decision point. This project models what travels between them and how.

- **DDF trees** (`Forest`, `Ops`, `Paths`, `Members`, `Iteration`, `Trees`, `Grafts`, `Runs`, `Ddf`). `Body`
  is the heap node with its pointer fields, and class `Ddf.Store` holds the DDF operations that
  rewrite those fields. `Store.View` is the heap as a value (`Forest.Heap`): per node its name,
  value, parent, child sequence and cursor. `Store.Valid` ties `first`, `last`, `next`, `prev` and
  `count` to the child sequences and demands `Forest.Wf`: parent pointers agree with the child
  sequences, children are distinct, every node has a finite depth (no cycles), cursors are null or
  children, members of a struct have distinct, plain names. Every method ensures that the new view
  is a given function of the old one; the properties are proved about those functions.
- **The wire form** (`Numbers`, `Xml`, `Wire`, `Streams`, `Reading`, `Packets`). `Xml.Read` is a small
  reference reader for the document fragment DDF uses: elements, attributes with the
  normalization of section 3.3.3 of XML 1.0, character data, the line-end handling of section 2.11
  and the predefined entities of section 4.6. `Wire` states the printed form and the reading as
  functions on trees and proves the round trip; `Streams`, `Reading` and `Packets` are the stream
  operators on heap nodes.
- **The protocol** (`Frames`, `Rpc`, `Sockets`). `Rpc` is a transition system: any number of client
  calls and server workers, interleaved over connections with two byte queues, with partial sends,
  short reads, arbitrary chunks, failures at any point and one retry. Bytes towards the server carry
  the number of the call that sent them; only the properties look at it. `Sockets` is the code of
  the pool, of `send` and of `job`: each method takes only steps of the transition system while
  all other threads run in between. `Calls` puts trees into the messages: a call through the socket
  is a call of the remote handler, up to the normal form of trees.
- **Worker threads** (`Workers`, `Threads`): the accept loop, the map of children, descriptor numbers
  that are handed out again, and shutdown, in the same two layers.
- **Requests and responses** (`Records`, `Remoting`, `Responses`, `Documents`, `Authorization`): `wrap`, the
  request accessors, `setResponseHeader`, `unwrap`, the header map, the processing of the decision point's
  response, and the decision (deny-biased, section 7.2.2 of XACML 3.0) and the obligations that reach the caller.
- **Two byte loops** (`CgiParser`, `IpRange`): the parameter splitter and CIDR blocks.

`Basics` holds shared vocabulary.

## Conditions on callers

Allocation succeeds. A node added to a struct has a non-empty name of at most 255 characters
without `.` and not starting with `[`, because `add` looks the old member up as a path; an attached
member is renamed only to a free name of that kind. A child that is added is neither the receiver nor one of its ancestors and
does not lie below the member it replaces (`Ops.MoveNeedsNonAncestor` shows that the first part
is exact). Text consists of characters that XML 1.0 keeps. The URL encoder is an arbitrary pair of
functions with `decode(encode(s)) == s` that keeps strings non-empty, and so is the conversion between
text and bytes. `HTTPResponse::setResponseHeader` of the tool library, which `PEPRequestImpl` calls first
and which may throw, is an arbitrary predicate `accepts` on name and value. A socket send that
returns n has accepted exactly the first n bytes; a short read of a length is a failure. Messages
fit an `int`. Every `Status` element holds a `StatusCode`, which the code dereferences without a check.

## Where the code does less than it seems to

- `Authorization.DenyHidden`: the caller can see Permit although the last `Decision` is Deny. An
  obligation with empty text becomes a header without a value, at which `unwrap` stops replaying; one
  whose text the tool library refuses makes `setResponseHeader` throw, the handler catches that
  (`AuthorizationHandler.cpp` lines 143 to 150), and the decision is made on the headers so far. Either
  way later decisions are lost. `Authorization.LateDecisions` says for every response exactly when, and
  `Authorization.DenyBias` gives the rule for responses whose headers are non-empty and accepted.
- `Calls.SendOutcome`: `send` raises an exception that the handler threw exactly when its text is not
  empty, and raises instead of returning exactly those answers that are non-empty strings named "exception".
- `Authorization.StatusNeverOk`: whatever the response says, the caller is told that the status is an error,
  because line 60 of `api.cpp` compares the status value with the name of the header.
- `Members.AddFailsClean`: an `addmember` that fails at a later empty component also destroys a member of the
  first name that was there before.
- `Remoting.CertificatesSurvive`: the certificate list arrives complete exactly when no certificate
  is empty. `Responses.DeliveredExactly`: a header sequence is replayed unchanged exactly when no
  value is empty, no name exceeds 255 characters and none is refused.
- `Wire.WireExact`: a tree comes back unchanged exactly when it holds no null string, no pointer and no cursor.
- A nameless child added to a struct stays unattached (`Reading.Deserialize` leaves such a node behind).
- `HAVE_STRCASECMP` is defined nowhere in the repository, so `unwrap` compares with "Content-Type" exactly.

## Model

| member | source | states |
|---|---|---|
| Forest.DetachWf | libpep/src/pep/remoting/impl/ddf.cpp:534-559 | Taking a node out of its parent keeps the whole tree invariant. |
| Forest.AttachWf | libpep/src/pep/remoting/impl/ddf.cpp:464-525 | Putting a detached node in at any position keeps the invariant when no ancestor of the parent is moved and the name is free. |
| Forest.HollowWf | libpep/src/pep/remoting/impl/ddf.cpp:337-360 | Emptying a node, which frees all below it, keeps the invariant for the rest. |
| Forest.DestroyWf | libpep/src/pep/remoting/impl/ddf.cpp:161-167 | Destroying a node leaves a well-formed heap. |
| Forest.SetValueWf | libpep/src/pep/remoting/impl/ddf.cpp:362-462 | The typed setters keep the invariant. |
| Forest.RenameWf | libpep/src/pep/remoting/impl/ddf.cpp:216-234 | Renaming a node keeps the invariant; a struct member needs a plain name that no sibling has. |
| Forest.PrunedNext | libpep/src/pep/remoting/impl/ddf.cpp:337-360 | In the loop of empty, destroying the next child leads from one stage to the next, on a smaller subtree. |
| Forest.PrunedDone | libpep/src/pep/remoting/impl/ddf.cpp:337-360 | The first stage of that loop is the heap itself; the last one, with the node's own value reset, is the heap without all nodes below. |
| Ops.AddWf | libpep/src/pep/remoting/impl/ddf.cpp:464-489 | add, with the member it replaces destroyed first, keeps the invariant. |
| Ops.AddBesideWf | libpep/src/pep/remoting/impl/ddf.cpp:491-525 | addbefore and addafter keep the invariant, also when the child moves within its list. |
| Ops.BesideAnchor | libpep/src/pep/remoting/impl/ddf.cpp:491-525 | The child stands right before its anchor after addbefore and right behind it after addafter; the other children keep their order. |
| Ops.MoveNeedsNonAncestor | libpep/src/pep/remoting/impl/ddf.cpp:464-489 | Moving a node keeps the invariant if and only if the new parent does not lie at or below it. |
| Ops.DestroyKeeps | libpep/src/pep/remoting/impl/ddf.cpp:161-167 | destroy frees exactly the subtree; every other node keeps name, value and parent, and all but the former parent everything. |
| Runs.RunWf | libpep/src/pep/remoting/impl/ddf.cpp:123-660 | Every sequence of creations, renamings, adds, anchored adds, addmembers, copies, removals, destructions, setters and walks keeps the invariant; a copy is any result that the contract of `Ddf.Store.Copy` allows. |
| Paths.GetStaysInside | libpep/src/pep/remoting/impl/ddf.cpp:662-691 | What a path finds is the receiver or lies below it. |
| Paths.OwnName | libpep/src/pep/remoting/impl/ddf.cpp:475-476 | Looking up a member's own name finds that member, so add replaces the right one. |
| Paths.Dotted | libpep/src/pep/remoting/impl/ddf.cpp:66-89 | A dotted path finds, for any node, what the rest of it finds from where the first component leads. |
| Paths.IndexFinds | libpep/src/pep/remoting/impl/ddf.cpp:662-675 | A bracket and a printed index find the child of a list at that place; index zero finds any other node itself. |
| Paths.ListHandsOn | libpep/src/pep/remoting/impl/ddf.cpp:681-684 | A list passes a path that starts with a name on to its first child. |
| Paths.ReachesIsGet | libpep/src/pep/remoting/impl/ddf.cpp:662-691 | Following member after member by name is what getmember does with the names joined by dots. |
| Trees.GetAgrees | libpep/src/pep/remoting/impl/ddf.cpp:662-691 | getmember on the heap agrees with a recursive lookup on the tree, for every tree and path. |
| Members.AddThenGet | libpep/src/pep/remoting/impl/ddf.cpp:632-660 | After addmember(path) succeeds, getmember(path) finds the node it returned. |
| Members.AddReaches | libpep/src/pep/remoting/impl/ddf.cpp:632-660 | After addmember the returned node is reached from the receiver through structs, member by member, and bears the last name of the path. |
| Members.AddSucceeds | libpep/src/pep/remoting/impl/ddf.cpp:632-660 | addmember returns a node if and only if no component of the path is empty. |
| Members.AddFailsClean | libpep/src/pep/remoting/impl/ddf.cpp:650-654 | An addmember that fails leaves no new node behind, and no member with the first name. |
| Members.AddAgain | libpep/src/pep/remoting/impl/ddf.cpp:632-660 | A second addmember of the same path returns the same node and changes nothing. |
| Members.AddKeepsLookups | libpep/src/pep/remoting/impl/ddf.cpp:632-660 | Paths through no node that was converted to a struct resolve as before. |
| Iteration.ForwardTour | libpep/src/pep/remoting/impl/ddf.cpp:534-589 | first and next visit each child once and in order, whichever visited children are removed on the way. |
| Iteration.BackwardTour | libpep/src/pep/remoting/impl/ddf.cpp:534-612 | last and previous visit the children in reverse under the same removals. |
| Grafts.AddGrafts | libpep/src/pep/remoting/impl/ddf.cpp:464-489 | Adding a detached tree appends it to the children and drops the member it replaces; nothing else in the tree changes. |
| Grafts.AddOther | libpep/src/pep/remoting/impl/ddf.cpp:464-489 | Nodes outside the receiver's tree are untouched by add. |
| Ddf.Store.Remove | libpep/src/pep/remoting/impl/ddf.cpp:534-559 | The pointer surgery of remove is the detach function on the child sequences, with the cursor moved back. |
| Ddf.Store.New | libpep/src/pep/remoting/impl/ddf.cpp:123-131 | A fresh detached empty node whose name is cut at 255 characters. |
| Ddf.Store.Name | libpep/src/pep/remoting/impl/ddf.cpp:216-234 | The name of the node changes and nothing else; an attached struct member needs a free plain name. |
| Ddf.Store.Empty | libpep/src/pep/remoting/impl/ddf.cpp:337-360 | Everything below the node is freed and the node is empty. |
| Ddf.Store.Destroy | libpep/src/pep/remoting/impl/ddf.cpp:161-167 | Terminates by subtree size, frees the subtree, splices the node out of its siblings. |
| Ddf.Store.Set | libpep/src/pep/remoting/impl/ddf.cpp:362-411 | The scalar setters empty the node and then store the value. |
| Ddf.Store.MakeContainer | libpep/src/pep/remoting/impl/ddf.cpp:431-453 | structure and list. |
| Ddf.Store.Add | libpep/src/pep/remoting/impl/ddf.cpp:464-489 | add on handles that may be null, with all early returns. |
| Ddf.Store.AddBeside | libpep/src/pep/remoting/impl/ddf.cpp:491-525 | addbefore and addafter link the child next to its anchor and do nothing unless the receiver is the anchor's list. |
| Ddf.Store.Walk | libpep/src/pep/remoting/impl/ddf.cpp:569-612 | first, next, last and previous return the child and move the cursor that the iteration results speak about. |
| Ddf.Store.At | libpep/src/pep/remoting/impl/ddf.cpp:619-630 | Following next pointers from the first child reaches the child at the index. |
| Ddf.Store.GetMember | libpep/src/pep/remoting/impl/ddf.cpp:662-691 | Terminates on path length and then remaining height, and finds what the path function says. |
| Ddf.Store.AddMember | libpep/src/pep/remoting/impl/ddf.cpp:632-660 | Creates exactly the members the path lacks, and takes them back if a later component is empty. |
| Ddf.Store.Copy | libpep/src/pep/remoting/impl/ddf.cpp:169-209 | The copy consists of new nodes only, stands for the same tree with each cursor at the same index, and the original is unchanged. |
| Numbers.AtolOfText | libpep/src/pep/remoting/impl/ddf.cpp:284-292 | Of a text with white space, a number of any size and something else behind it atol gives the nearest long. |
| Numbers.StrtoulOfText | libpep/src/pep/remoting/impl/ddf.cpp:670-670 | strtoul gives a number of word size back, a negative one modulo the word size. |
| Numbers.AtolOfPrint | libpep/src/pep/remoting/impl/ddf.cpp:404-411 | Reading a printed integer gives the integer back, over the whole range of long. |
| Xml.UnescapeEscape | libpep/src/pep/remoting/impl/ddf.cpp:807-827 | Escaped text decodes to the original text. |
| Xml.EscapeInjective | libpep/src/pep/remoting/impl/ddf.cpp:807-827 | Different texts are escaped differently. |
| Xml.RoundTrip | libpep/src/pep/remoting/impl/ddf.cpp:949-972 | The reference reader reads back every printed element. |
| Wire.ItemBack | libpep/src/pep/remoting/impl/ddf.cpp:988-1051 | deserialize on a printed element gives the normal form of the tree, named if the element shows the name. |
| Wire.WireRoundTrip | libpep/src/pep/remoting/impl/ddf.cpp:829-1063 | Reading back what is printed gives the same tree up to the normal form: null strings and pointers become empty nodes, cursors are reset. |
| Wire.WireExact | libpep/src/pep/remoting/impl/ddf.cpp:829-1063 | The tree comes back unchanged if and only if it is in normal form. |
| Wire.NormalStable | libpep/src/pep/remoting/impl/ddf.cpp:829-1063 | A second trip changes nothing more. |
| Streams.XmlEncode | libpep/src/pep/remoting/impl/ddf.cpp:807-827 | The loop over runs of ordinary characters writes the escaped string. |
| Streams.Serialize | libpep/src/pep/remoting/impl/ddf.cpp:829-933 | Walking the child pointers prints the element of the tree, piece by piece, and changes nothing. |
| Streams.SerializeMembers | libpep/src/pep/remoting/impl/ddf.cpp:887-895 | The loop over struct members prints them in order. |
| Streams.SerializeKids | libpep/src/pep/remoting/impl/ddf.cpp:909-913 | The loop over list children prints them in order. |
| Reading.Deserialize | libpep/src/pep/remoting/impl/ddf.cpp:988-1051 | Builds, out of new nodes only, a detached tree that is the one the element stands for. |
| Packets.Insertion | libpep/src/pep/remoting/impl/ddf.cpp:937-944 | operator<< prints the packet around the tree, or around an empty node for a null handle. |
| Packets.Extraction | libpep/src/pep/remoting/impl/ddf.cpp:1053-1063 | operator>> destroys the old tree once the text has parsed and builds the tree read; if the parser throws, nothing changes. |
| Packets.DroppedNodes | libpep/src/pep/remoting/impl/ddf.cpp:1053-1063 | The tree operator>> destroys goes with all its nodes and no others. |
| Packets.HeapRoundTrip | libpep/src/pep/remoting/impl/ddf.cpp:829-1063 | Whatever operator<< prints for a well-formed heap is within the domain of operator>> and stands for the normal form. |
| Packets.Carry | libpep/src/pep/remoting/impl/SocketListener.cpp:289-358 | Writing a tree from one heap and reading it into another rebuilds it there up to the normal form. |
| Frames.HeaderLength | libpep/src/pep/remoting/impl/SocketListener.cpp:307-332 | ntohl undoes htonl on the four header bytes. |
| Frames.HeaderOrder | libpep/src/pep/remoting/impl/SocketListener.cpp:306-307 | Headers compare byte by byte as the numbers do: they are in network order. |
| Frames.FramesDelimit | libpep/src/pep/remoting/impl/SocketListener.cpp:307-332 | No frame is a prefix of another one. |
| Rpc.StepInv | libpep/src/pep/remoting/impl/SocketListener.cpp:282-355 | Every step of every client and worker keeps the protocol invariant. |
| Rpc.AtMostOnce | libpep/src/pep/remoting/impl/SocketListener.cpp:300-320 | In every reachable state no two dispatches consumed bytes of the same call, and each consumed one whole frame. |
| Rpc.FailedAttemptsFallShort | libpep/src/pep/remoting/impl/SocketListener.cpp:308-316 | While a call may still retry, every socket it used has accepted only a strict prefix of its frame. |
| Rpc.RetrySucceeds | libpep/src/pep/remoting/impl/SocketListener.cpp:300-320 | A concrete run: the first attempt is cut short after two bytes, the second gets the reply, and there is one dispatch. |
| Rpc.ReplyMatches | libpep/src/pep/remoting/impl/SocketListener.cpp:324-358 | A call that returns was dispatched exactly once and returns the reply to its own request. |
| Rpc.RequestLockStep | libpep/src/pep/remoting/impl/SocketListener.cpp:496-529 | What a worker has taken and what is unread are the two parts of what was sent of one frame; the counter is the rest of the payload. |
| Rpc.ReplyLockStep | libpep/src/pep/remoting/impl/SocketListener.cpp:324-347 | What a client has read and what is unread start one reply frame, the one for its own request. |
| Rpc.NoUnderflow | libpep/src/pep/remoting/impl/SocketListener.cpp:338-347 | Neither unsigned counter wraps, for any chunking. |
| Rpc.ReassembledIsSent | libpep/src/pep/remoting/impl/SocketListener.cpp:519-529 | The payload job reassembles is the payload its caller sent, and every byte came from that caller. |
| Rpc.PoolDiscipline | libpep/src/pep/remoting/impl/SocketListener.cpp:148-163 | An open socket is pooled once or held by exactly one caller; pooled sockets are idle with nothing unread; closed ones are neither. |
| Rpc.ClosedForGood | libpep/src/pep/remoting/impl/SocketListener.cpp:308-355 | A socket that was closed is never pooled again. |
| Sockets.Process.Connect | libpep/src/pep/remoting/impl/SocketListener.cpp:97-137 | Succeeds exactly when the socket can be created and one of three attempts to connect it works, the first of which is used; otherwise it is an exception. |
| Sockets.Process.Get | libpep/src/pep/remoting/impl/SocketListener.cpp:148-158 | The socket on top of the pool, which is popped, or with an empty pool the newest connection; open, this call's alone and not yet used. |
| Sockets.Process.Put | libpep/src/pep/remoting/impl/SocketListener.cpp:160-163 | The call is answered and its socket is the new top of the pool. |
| Sockets.Process.Deliver | libpep/src/pep/remoting/impl/SocketListener.cpp:300-320 | The retry loop ends with the whole frame sent on one socket after at most one short send; it fails exactly when there is no connection or a second send comes up short. |
| Sockets.Process.ReadReply | libpep/src/pep/remoting/impl/SocketListener.cpp:324-355 | For every chunking the whole reply is returned, with the socket on top of the pool, exactly when the length arrives and no read fails; otherwise the socket is closed. |
| Sockets.Process.Send | libpep/src/pep/remoting/impl/SocketListener.cpp:282-381 | A returned reply is the one of the only dispatch of this request, whatever all other threads do meanwhile; there is one exactly when no more went wrong with the system calls than one short send. |
| Sockets.Process.Job | libpep/src/pep/remoting/impl/SocketListener.cpp:496-580 | The result is 0 exactly when no system call failed, 1 when the connection was closed, -1 otherwise; on success the frame read is the whole frame of one call, was dispatched, and the worker is ready again. |
| Calls.DispatchReads | libpep/src/pep/remoting/impl/SocketListener.cpp:496-540 | In every run in which messages are trees, what a dispatch unmarshals is the normal form of the tree its caller serialized. |
| Calls.RemoteCall | libpep/src/pep/remoting/impl/SocketListener.cpp:282-381 | A call that returns had one dispatch, and the tree it unmarshals is the normal form of what the handler made there of the normal form of its own tree. |
| Calls.SendOutcome | libpep/src/pep/remoting/impl/SocketListener.cpp:360-381 | send raises what the handler of the only dispatch threw if and only if its text is not empty, and returns what it gave if and only if that is not a non-empty string named "exception". |
| Calls.RequestAnswered | libpep/src/pep/handler/impl/RemotedHandler.cpp:276-360 | A request wrapped, sent, read, answered with headers and received replays as those headers do after the wire, whatever the protocol went through. |
| Workers.StepInv | libpep/src/pep/remoting/impl/SocketListener.cpp:211-494 | Every step of the accept loop and of every worker keeps the invariant. |
| Workers.OneWorkerPerDescriptor | libpep/src/pep/remoting/impl/SocketListener.cpp:450-455 | No two registered workers have the same descriptor number, in any reachable state. |
| Workers.ServesOwnConnection | libpep/src/pep/remoting/impl/SocketListener.cpp:445-494 | Until a worker closes it, its descriptor number stands for its own connection. |
| Workers.EraseOwnOnly | libpep/src/pep/remoting/impl/SocketListener.cpp:435-443 | A destructor erases the registration of its own worker and no other. |
| Workers.ReuseHappens | libpep/src/pep/remoting/impl/SocketListener.cpp:450-455 | A run in which a number is handed out again before its old worker has deregistered. |
| Workers.NoJobAfterReturn | libpep/src/pep/remoting/impl/SocketListener.cpp:211-275 | Once run has returned no worker is in job and none ever enters it again, registered or not. |
| Threads.Listener.Own | libpep/src/pep/remoting/impl/SocketListener.cpp:450-455 | The wait loop ends with the number owned by this worker and no other. |
| Threads.Listener.RunWorker | libpep/src/pep/remoting/impl/SocketListener.cpp:445-494 | For what its polls report: it ends exactly at shutdown, at a failing select or at a job that does not return 0, and serves a job for every readable poll before; if shutdown was requested before it serves none. |
| Threads.Listener.EndJob | libpep/src/pep/remoting/impl/SocketListener.cpp:481-491 | A job that returns anything but 0 closes the worker's own connection and ends it. |
| Threads.Listener.Serve | libpep/src/pep/remoting/impl/SocketListener.cpp:211-262 | An accepted connection gets a new worker of its own; only a failing select, or an unknown error in creating a worker that is not to be caught, asks for shutdown. |
| Threads.Listener.Erase | libpep/src/pep/remoting/impl/SocketListener.cpp:435-443 | After the destructor the number is free and the worker is in no registration. |
| Threads.Listener.Run | libpep/src/pep/remoting/impl/SocketListener.cpp:211-275 | When run returns, shutdown was requested and no worker is serving; after shutdown or a failing select it makes no further select. |
| Records.AddField | libpep/src/pep/handler/impl/RemotedHandler.cpp:278-291 | addmember with a new name and a setter append one member to a tree under construction. |
| Remoting.Wrap | libpep/src/pep/handler/impl/RemotedHandler.cpp:276-333 | Builds the thirteen members and, if there are any, the list of certificates, in order. |
| Remoting.GetString | libpep/src/pep/handler/impl/RemotedHandler.cpp:78-134 | The string accessors read the member of the tree. |
| Remoting.GetInteger | libpep/src/pep/handler/impl/RemotedHandler.cpp:87-96 | The integer accessors, with the conversions of DDF. |
| Remoting.StringOf | libpep/src/pep/handler/impl/RemotedHandler.cpp:78-134 | Of a member that is a string its text is read, of any other one nothing. |
| Remoting.IntegerOfText | libpep/src/pep/handler/impl/RemotedHandler.cpp:87-96 | Of a member whose text starts with a number that number is read. |
| Remoting.GetCertificates | libpep/src/pep/handler/impl/RemotedHandler.cpp:174-200 | The loop over first and next collects the strings up to the first child without one. |
| Remoting.RequestSurvives | libpep/src/pep/handler/impl/RemotedHandler.cpp:276-333 | After the wire every accessor gives back the request's field, null and empty strings identified, and the message bears the address. |
| Remoting.CertificatesSurvive | libpep/src/pep/handler/impl/RemotedHandler.cpp:174-200 | The certificate list arrives unchanged if and only if no certificate is empty. |
| Remoting.Forward | libpep/src/pep/handler/impl/RemotedHandler.cpp:276-333 | Wrapping on one heap, printing, and reading on another gives a tree from which the same request is read. |
| Responses.RemotedResponse.SetResponseHeader | libpep/src/pep/handler/impl/RemotedHandler.cpp:219-228 | The output tree holds the sequence of all calls, in order. |
| Responses.LocalRequest.SetResponseHeader | libpep/src/pep/core/PEPRequestImpl.cpp:173-178 | An accepted header is entered in the map and the map is the one of all calls so far; a refused one changes nothing. |
| Responses.Unwrap | libpep/src/pep/handler/impl/RemotedHandler.cpp:335-360 | Replays the strings at the start of the header list up to the first refused one; reports the exception if there was one, otherwise redirect, response or neither. |
| Responses.RedirectArrives | libpep/src/pep/handler/impl/RemotedHandler.cpp:351-353 | After the wire a string member redirect is reported with its URL, also when there is a response. |
| Responses.ResponseArrives | libpep/src/pep/handler/impl/RemotedHandler.cpp:354-358 | After the wire a struct member response is reported with its data and its status. |
| Responses.HeadersUnfinished | libpep/src/pep/handler/impl/RemotedHandler.cpp:359-359 | A response of headers alone finishes nothing. |
| Responses.ReplayUpTo | libpep/src/pep/handler/impl/RemotedHandler.cpp:335-349 | The replay takes the strings at the start of the list and stops at the first other child. |
| Responses.LastWins | libpep/src/pep/core/PEPRequestImpl.cpp:161-178 | The last value set for a name is the one found. |
| Responses.OnlyNames | libpep/src/pep/core/PEPRequestImpl.cpp:161-178 | Only names that were set are found. |
| Responses.ResponseSurvives | libpep/src/pep/handler/impl/RemotedHandler.cpp:335-360 | What unwrap comes across after the wire is the header sequence up to the first empty value, with names cut at 255 characters. |
| Responses.DeliveredExactly | libpep/src/pep/handler/impl/RemotedHandler.cpp:219-228 | The sequence is replayed unchanged if and only if every header has a non-empty value, a name that fits, and is accepted. |
| Documents.ByTagLists | libpep/src/pep/handler/impl/AuthorizationHandler.cpp:249-293 | getElementsByTagName finds the elements with the tag at any depth, each once, none missing, in document order. |
| Authorization.ResultOfExactly | libpep/src/pep/handler/impl/AuthorizationHandler.cpp:290-325 | The Result that is processed is the only one in the first Response, and there is none otherwise. |
| Authorization.ProcessAuthzResponse | libpep/src/pep/handler/impl/AuthorizationHandler.cpp:290-404 | The nested loops emit the headers of the only Result of the first Response, and none otherwise. |
| Authorization.ProcessObligation | libpep/src/pep/handler/impl/AuthorizationHandler.cpp:246-288 | An obligation of a known identifier emits its first assignment. |
| Authorization.ProcessResponse | libpep/src/pep/api/api.cpp:31-64 | Permit only for the value PERMIT together with a non-empty status header; remote user and redirect are the non-empty headers of their names. |
| Authorization.ResultValues | libpep/src/pep/handler/impl/AuthorizationHandler.cpp:336-350 | The last decision header says PERMIT exactly when the last Decision child is Permit. |
| Authorization.StatusValue | libpep/src/pep/handler/impl/AuthorizationHandler.cpp:351-371 | The last status header says OK exactly when the text of the last Status child is the OK value. |
| Authorization.ObligationValues | libpep/src/pep/handler/impl/AuthorizationHandler.cpp:372-399 | For every response the last remote user emitted is the text of the first assignment of the last update-remote-user obligation that has one; likewise the redirect. |
| Authorization.ObligationsTold | libpep/src/pep/api/api.cpp:66-86 | For every response the caller is told the last remote user and the last redirect among the headers that get through. |
| Authorization.ObligationsCarried | libpep/src/pep/api/api.cpp:66-86 | If every header is non-empty and accepted, the caller is told what the last obligations of the two kinds grant. |
| Authorization.StatusNeverOk | libpep/src/pep/api/api.cpp:48-64 | The status the caller is told is an error for every response. |
| Authorization.DenyBias | libpep/src/pep/api/api.cpp:31-64 | If every header is non-empty and accepted, the caller sees Permit if and only if there is one Result, its last Decision is exactly Permit and it has a Status. |
| Authorization.PermitFromPermit | libpep/src/pep/handler/impl/AuthorizationHandler.cpp:290-404 | For every response a Permit needs exactly one Result in the first Response, a Decision that is exactly Permit, and a Status. |
| Authorization.LateDecisions | libpep/src/pep/handler/impl/RemotedHandler.cpp:335-352 | For every response: a Permit at the caller means that the last Decision is Permit, if and only if there is no first empty or refused header before which the last decision is PERMIT with a status and behind which the last decision is DENY. |
| Authorization.DenyHidden | libpep/src/pep/handler/impl/RemotedHandler.cpp:335-352 | A response with an obligation text that is empty or refused, whose last Decision is Deny and which the caller sees as Permit. |
| Authorization.CheckAuthorization | libpep/src/pep/api/api.cpp:93-102 | The composition of all steps from the response document to what the caller is told, over both heaps and the wire: exactly the decision and the obligations when no header is empty or refused. |
| CgiParser.MakeWord | libpep/src/pep/util/CGIParser.cpp:43-60 | In place: the word is what precedes the first stop character and the line keeps what follows it. |
| CgiParser.FMakeWord | libpep/src/pep/util/CGIParser.cpp:62-91 | Never writes outside the growing buffer, keeps pointer and count in step and cuts one segment. |
| CgiParser.PlusToSpace | libpep/src/pep/util/CGIParser.cpp:93-98 | In place: every plus sign becomes a space. |
| CgiParser.CgiParser.constructor | libpep/src/pep/util/CGIParser.cpp:102-108 | The query first, then the body of a form post, unless only the query is wanted. |
| CgiParser.CgiParser.Parse | libpep/src/pep/util/CGIParser.cpp:116-130 | Terminates and inserts, in order, one pair per segment, decoded and then split at its first equals sign. |
| CgiParser.PairSplit | libpep/src/pep/util/CGIParser.cpp:123-127 | A segment that decodes to k=v, with no equals sign in k, becomes the pair of name k and value v. |
| CgiParser.PairWhole | libpep/src/pep/util/CGIParser.cpp:123-127 | A segment that decodes to a text without an equals sign becomes a name with an empty value. |
| CgiParser.FormContent | libpep/src/pep/util/CGIParser.cpp:105-106 | A body is a form for POST and any content type that holds the form type. |
| CgiParser.PiecesAreSegments | libpep/src/pep/util/CGIParser.cpp:62-130 | Without the byte 0xFF the segments are the parts between the ampersands, an empty last one dropped. |
| CgiParser.JoinSplit | libpep/src/pep/util/CGIParser.cpp:62-130 | Those parts hold no ampersand and joining them gives the text back. |
| CgiParser.InOrder | libpep/src/pep/util/CGIParser.cpp:116-130 | The values of a name are the texts behind the name and its equals sign in the decoded segments; they come out in the order of the text, behind those already there. |
| CgiParser.RangeValues | libpep/src/pep/util/CGIParser.cpp:132-137 | The entries getParameters encloses hold exactly those values, in order. |
| CgiParser.CgiParser.GetParameters | libpep/src/pep/util/CGIParser.cpp:132-137 | The bounds enclose exactly the entries of the name, or all entries for null. |
| IpRange.Construct | libpep/src/pep/util/IPRange.cpp:73-95 | Fails exactly outside 0 to L; otherwise the mask holds the first m bits and the network is the masked address. |
| IpRange.Assemble | libpep/src/pep/util/IPRange.cpp:134-140 | Shifting in sixteen bytes gives the number they stand for in network order. |
| IpRange.MatchIsInterval | libpep/src/pep/util/IPRange.cpp:108-154 | The masked comparison holds exactly in the aligned interval of size 2^(L-m) around the base address. |
| IpRange.Contains | libpep/src/pep/util/IPRange.cpp:108-154 | contains holds exactly for addresses of the same family in that interval. |
| IpRange.BytePrefix | libpep/src/pep/util/IPRange.cpp:108-154 | Two addresses share the block of prefix length 8k if and only if their first k bytes are the same. |
| IpRange.HostBitsIgnored | libpep/src/pep/util/IPRange.cpp:73-95 | The range does not depend on the host bits of the base address. |
| IpRange.NestedOrDisjoint | libpep/src/pep/util/IPRange.cpp:108-154 | Two ranges of one family that share an address are nested, the one with the longer prefix inside. |

## Left out

- Floating-point values, `DDF::dump`, `swap`, `parent` and the comparison operators of DDF: they add only easy members or depend on rounding.
- Numbers with a decimal point in `deserialize`, for the same reason; `Reading.Deserialize` requires that there are none.
- Ddf.Store.GetMember: a path component longer than 255 characters that ends in a dot exceeds what `ddf_token` is made for; the model keeps the whole component, and `Members.Addable` keeps `addmember` away from such paths.
- Reads of freed nodes: the set `live` of a store stands for the allocated nodes, and callers must pass live handles.
- A struct leaves a nameless child that is added to it unattached; the node stays allocated.
- XML features beyond the fragment DDF prints: comments, processing instructions, CDATA sections, character references, document types. Xerces is not part of this model.
- The URL encoder is abstract; X.509 parsing is not part of this model, and certificates are strings.
- Packets.Extraction: a document without a data element makes the code dereference null; the method requires that there is one.
- Sockets.Process.Send: the number of interrupted system calls is finite but arbitrary, so that the read loops end; what the operating system answers is arbitrary, and the field `troubles` records the failures; unmarshalling the reply is the business of `Packets`.
- Sockets.Process.Job: a request that cannot be unmarshalled is answered with an exception instead of being dispatched; here every complete request counts as dispatched, which only strengthens what at most once says.
- Rpc.PoolDiscipline: bytes that a closed socket had received and not read are not tracked.
- Operating-system sockets, `select`, signals, daemonisation, `TCPListener`, `UnixListener`: results of system calls are arbitrary within their contracts.
- Liveness of the hand-over of descriptor numbers and of shutdown: the condition variable wakes one waiter, so only safety is claimed.
- Threads.Listener.RunWorker: the loop is followed for any finite sequence of reports, and the wait for the descriptor number for any number of rounds, because they need not end.
- Threads.Listener.Run: the same holds for the accept loop and for the wait at its end.
- Responses.Unwrap: a header string without a name or a text makes the code dereference null; the method requires that there is none, which `Responses.ResponseSurvives` shows for every response read from the wire.
- Remoting.Wrap: the optional request headers (lines 293 to 308) are left out; the only caller passes none, nothing registers any, and the local request reports every header as empty.
- `sendRedirect` and `sendResponse` of the remote response, and what the HTTP response itself holds: the response type of the tool library is not part of this model, except that its `setResponseHeader` accepts or refuses.
- Responses.LocalRequest.SetContentType: inherited from the tool library and taken to set the header "Content-Type" through the same method.
- Calls.RemoteCall: a handler either writes one tree or throws before it writes; the conversion of the exception object to its text and back is not part of this model.
- Runs.RunWf: that a copy is well formed is part of what `Ddf.Store.Copy` proves, and the run takes it from there.
- Building the XACML request and the SOAP exchange; property sets, configuration, handler maps and listener registries; the Apache module and logging.
- `IPRange::parseCIDRBlock` and `getaddrinfo`: `IpRange.Contains` starts from a parsed address.
