# Verified models of the embedded-vision and telemetry projects

This project models the parts of the repository whose correctness is not obvious from reading one
function, and proves what they promise, for all inputs and all runs:

- the bounded drop-oldest frame queue, once as an object and once as a protocol between any number of
  threads, and the RTSP feeder thread that drains it (`FrameQueue`, `QueueProtocol`, `RtspFeeder`);
- the detector's geometry and post-processing: letterbox and its inverse, tensor decoding, greedy
  class-aware NMS, CAN packing, and one frame through all of them (`Letterbox`, `LetterboxSampling`,
  `YoloDecode`, `YoloRoundTrip`, `Nms`, `IouMeasure`, `CanPublisher`, `DetectorPipeline`);
- the BMP280 32-bit compensation of sections 3.11.3 and 8.2 of the BMP280 datasheet, revision 1.19,
  its limits, and its distance from the floating-point formula of section 8.1
  (`Bmp280`, `Bmp280Pressure`, `Bmp280Limits`, `Bmp280Accuracy`);
- V4L2 buffer ownership and drop accounting (`V4l2Capture`);
- the `diag mem` DRAM walk over memory that may alias (`DramWalk`);
- the rolling statistics of the pipeline and of the detector (`RollingStats`);
- the virtual-CAN transmitter and receiver over whole runs (`CanTelemetry`, `CanBus`), and
  its drive cycle (`DriveCycle`).

`Sequences` and `Arithmetic` hold shared facts. `dafny verify dfyconfig.toml` checks everything.

## How the source is modelled

- Everything done under a mutex is one atomic step; `notify_one` and `notify_all` run after the lock
  is released and are steps of their own. The queue object itself is a class; its 64-bit counters wrap.
- `float` and `double` are reals. Machine integers wrap explicitly in the BMP280 code, in the queue
  counters, in the 32-bit sequence numbers, in the odometer and in every byte conversion. The 64-bit
  statistics of the capture object and of the rolling statistics are unbounded.
- `std::sort` may order equal scores in any way: NMS is stated for an arbitrary score-descending
  permutation. For the statistics the sorted sequence is unique (`SortUnique`).
- What a program reads from the outside is a parameter: the driver's answers, whether a write
  succeeds, the values of `sin` and `exp`, the flags the feeder reads. Of the two sines their ranges are
  used and, for the odometer, that the fast one has six times the phase of the slow one, that every tick
  advances the phase by the same angle, and that 0 < sin x <= x and cos x > 0 for that angle.
- A queue needs capacity at least 1, a window at least 1: with 0 the source pops an empty deque or
  divides by zero.

## Where the code and its documentation disagree

The model follows the code.

- `stop()` is documented to re-queue every buffer so that `start()` can be called again
  (zero-copy-v4l2-capture/include/zcv4l2/v4l2_capture.hpp:80). It does not; after `stop` and `start`
  the driver holds no buffer and can deliver nothing (`V4l2Capture.Capture.Restart`).
- `--redline` is documented to push RPM past the alert threshold
  (vcan-socketcan-telemetry-bridge/src/can_tx.c:8-9, and the sample output in that project's README).
  The clamp to 16383 quarter turns caps RPM at 4095.75, so only the coolant alert fires, once per
  engine frame (`CanTelemetry.TickAlerts`, `RunAlerts`).
- The odometer drops the fraction of every tick. From 14.81 Hz on it never moves at all
  (`OdometerFrozen`); up to 14.77 Hz every long enough run moves it (`OdometerMoves`). For whole rates
  the line is between 14 and 15 Hz (`OdometerMovesIff`).
- `diag mem` is called non-destructive. With aliased memory it is not (`DramWalk.AliasDestroys`).
- "Rolling" mean: the mean is over the lifetime, not the window; `MeanIsWindowedIff` says exactly when
  the two agree.
- The pressure conversion ends in a cast to `u32`; inside the envelope in which nothing else overflows
  a slightly negative value is still reported as nearly 2^32 Pa. This happens exactly below a quotient
  that depends on the calibration alone, and never if dig_p7 is not negative (`PressExactIff`,
  `ThresholdZeroIff`, `AlwaysExactIff`).
- Drop counting goes quiet when a loss straddles the wrap of the 32-bit sequence number; it never
  over-counts (`DropsNeverOvercount`).
- The early objectness skip loses detections for a negative threshold, or class scores above 2 with a
  positive one: there are tensors on which the decoder then finds less (`SkipHarmlessIff`).
- The result of NMS depends on how `std::sort` orders equal scores exactly when two different boxes of
  equal score both survive every higher score while the cap still has room after the kept boxes of
  higher score (`OrderHiddenIff`, `TiesCanDiffer`).

## Model

| member | source | states |
|---|---|---|
| `FrameQueues.EveryRun` | gstreamer-multithread-pipeline/include/gstpipe/frame_queue.hpp:26-62 | after every sequence of push, pop and close, accepted frames are the removed ones in order followed by the contents; accepted = popped + dropped + size; size <= capacity; what consumers got is a subsequence of what was pushed |
| `FrameQueues.RunDetermined` | gstreamer-multithread-pipeline/include/gstpipe/frame_queue.hpp:26-70 | after every run the queue is what its operations alone say: it accepted exactly the pushes before the close, holds the newest of them (one more per push up to the capacity, one less per pop), and each pop got the oldest then waiting |
| `FrameQueues.EveryPopIsFresh` | gstreamer-multithread-pipeline/include/gstpipe/frame_queue.hpp:31-52 | a frame handed out was among the last `capacity` accepted at that moment; a dropped one was exactly the oldest of them |
| `FrameQueues.RunConsistent` | gstreamer-multithread-pipeline/include/gstpipe/frame_queue.hpp:26-70 | the invariant behind both, kept by every run from any consistent state |
| `FrameQueues.ClosedRun` | gstreamer-multithread-pipeline/include/gstpipe/frame_queue.hpp:30-70 | once closed nothing is accepted and k pops, by whomever, take exactly the first k frames |
| `FrameQueues.FrameQueue.Push` | gstreamer-multithread-pipeline/include/gstpipe/frame_queue.hpp:26-41 | drop-oldest push in place: new state, result, drop counter |
| `FrameQueues.FrameQueue.Take` | gstreamer-multithread-pipeline/include/gstpipe/frame_queue.hpp:44-62 | the locked part of pop and try_pop: front frame or nothing |
| `FrameQueues.FrameQueue.Close` | gstreamer-multithread-pipeline/include/gstpipe/frame_queue.hpp:64-70 | closes and changes nothing else |
| `FrameQueues.FrameQueue.Drain` | gstreamer-multithread-pipeline/src/main.cpp:95-97 | a consumer loop on a closed queue receives the contents in order and ends after size + 1 pops |
| `FrameQueues.FrameQueue.CountersAgree` | gstreamer-multithread-pipeline/include/gstpipe/frame_queue.hpp:77-79 | pushed = popped + dropped + size modulo 2^64, exactly before wrap |
| `QueueProtocol.EveryInterleaving` | gstreamer-multithread-pipeline/include/gstpipe/frame_queue.hpp:26-70 | no lost wakeup in every interleaving of any threads, spurious wakeups included: while someone sleeps, queue length <= owed notifies + woken threads, and a closed queue still owes its broadcast; the queue itself is determined by the steps |
| `QueueProtocol.EveryView` | gstreamer-multithread-pipeline/include/gstpipe/frame_queue.hpp:26-70 | in every interleaving the queue is what the locked sections of its steps make of it, one after the other, so it accepted exactly the frames pushed before the close and dropped the oldest |
| `QueueProtocol.PopsBlock` | gstreamer-multithread-pipeline/include/gstpipe/frame_queue.hpp:44-52 | in every interleaving each pop call has a frame, or returned without one from a closed queue, or is still inside: calls + successful try_pops = frames handed out + empty-handed returns + threads inside |
| `QueueProtocol.StepKeepsInv` | gstreamer-multithread-pipeline/include/gstpipe/frame_queue.hpp:26-70 | every step of every thread keeps that invariant and the queue's own, and does to the queue exactly its locked section |
| `QueueProtocol.Settles` | gstreamer-multithread-pipeline/include/gstpipe/frame_queue.hpp:39-69 | however deliveries are scheduled there are boundedly many, and when none is left nobody sleeps on a non-empty or closed queue |
| `QueueProtocol.CanSettle` | gstreamer-multithread-pipeline/include/gstpipe/frame_queue.hpp:39-69 | from every such state deliveries alone reach that rest |
| `QueueProtocol.NotQuietCanDeliver` | gstreamer-multithread-pipeline/include/gstpipe/frame_queue.hpp:39-69 | while something is owed or a thread is awake, a delivery is possible |
| `RtspFeeder.FeederLoop` | gstreamer-multithread-pipeline/src/rtsp_server.cpp:122-173 | the loop handles exactly the iterations before the first that ends it, and offers what the fold over them offers |
| `RtspFeeder.OffersArePassing` | gstreamer-multithread-pipeline/src/rtsp_server.cpp:132-165 | exactly the passing iterations are offered, in order, flagged by keyframe; a delta unit only with the gate open |
| `RtspFeeder.OffersAreWanted` | gstreamer-multithread-pipeline/src/rtsp_server.cpp:132-165 | offered are exactly the iterations with a client whose frame is a keyframe or found the gate open |
| `RtspFeeder.ServedCounts` | gstreamer-multithread-pipeline/src/rtsp_server.cpp:158-169 | served counts exactly the offers appsrc accepted: all iff every call returned ok, none iff no call did |
| `RtspFeeder.TimestampsRebased` | gstreamer-multithread-pipeline/src/rtsp_server.cpp:147-154 | whatever the timestamps, GST_CLOCK_TIME_NONE included: each offer carries its distance from the first valid timestamp offered up to then; only an older frame gets the wall clock; before any valid one frames go out at 0 |
| `RtspFeeder.DifferencesPreserved` | gstreamer-multithread-pipeline/src/rtsp_server.cpp:147-154 | for ordered input the first output is 0 and all differences are preserved |
| `FeederProtocol.EveryRun` | gstreamer-multithread-pipeline/src/rtsp_server.cpp:52-170 | in every interleaving with producer, callbacks and shutdown: offered frames are a subsequence of accepted ones, served <= offered <= popped <= accepted |
| `FeederProtocol.EveryTrace` | gstreamer-multithread-pipeline/src/rtsp_server.cpp:52-170 | in every run all follows from the steps alone: the queue from its locked sections, the flags from what was last stored, one frame per round of the loop, each decided by the gate and the client as they were when read for it, push-buffer times and results in order, and the thread ends only when stopped or when the queue is closed and empty |
| `FeederProtocol.EveryDecision` | gstreamer-multithread-pipeline/src/rtsp_server.cpp:126-141 | every popped frame is decided or in hand; it is skipped iff it is a delta frame and the last need-data or enough-data before its gate read left the gate closed; past the gate it is turned away iff no client was there when read; otherwise it is offered |
| `FeederProtocol.EveryTimestamp` | gstreamer-multithread-pipeline/src/rtsp_server.cpp:147-154 | over every run, ordered pushes give offered timestamps from 0 with differences preserved |
| `FeederProtocol.StepKeepsInv` | gstreamer-multithread-pipeline/src/rtsp_server.cpp:52-170 | every step of thread and environment, notifications and spurious wakeups included, keeps the account of frames, gate, client, stop and owed wakeups; it does to the queue exactly its locked section, and a read decides a frame exactly if the gate or the client turns it away |
| `FeederProtocol.OffersAfterStop` | gstreamer-multithread-pipeline/src/rtsp_server.cpp:52-55 | at most one frame is offered after `running_` was cleared |
| `FeederProtocol.ShutdownRun` | gstreamer-multithread-pipeline/src/rtsp_server.cpp:52-55 | after stop and close the thread takes at most five more steps of its own, whatever others do |
| `FeederProtocol.ShutdownNeverBlocks` | gstreamer-multithread-pipeline/src/rtsp_server.cpp:52-55 | on a closed queue a thread that has not exited can move, or sleeps while a broadcast that wakes it is still owed |
| `FeederProtocol.ShutdownExits` | gstreamer-multithread-pipeline/src/rtsp_server.cpp:52-55 | from every state after stop and close the thread exits by at most five own steps and, if asleep, one broadcast, so the join returns |
| `Nms.IouSymmetric` | edge-ai-detector-tensorrt-ros2/src/yolo_postprocess.cpp:11-20 | IoU does not depend on the order of its boxes |
| `Nms.IouInUnit` | edge-ai-detector-tensorrt-ros2/src/yolo_postprocess.cpp:11-20 | IoU of boxes of non-negative size lies in [0, 1] |
| `Nms.IouOfDuplicate` | edge-ai-detector-tensorrt-ros2/src/yolo_postprocess.cpp:11-20 | a box with area has IoU 1 with itself |
| `IouMeasure.IouIsShare` | edge-ai-detector-tensorrt-ros2/src/yolo_postprocess.cpp:11-20 | IoU times the area covered by either box is the area of the points covered by both |
| `IouMeasure.IouOfDisjoint` | edge-ai-detector-tensorrt-ros2/src/yolo_postprocess.cpp:11-20 | boxes without a common point have IoU 0 |
| `IouMeasure.IouOfInside` | edge-ai-detector-tensorrt-ros2/src/yolo_postprocess.cpp:11-20 | a box inside another has its share of the other's area |
| `IouMeasure.IouCountsCells` | edge-ai-detector-tensorrt-ros2/src/yolo_postprocess.cpp:11-20 | for boxes on a grid, IoU times the number of cells in either is the number of cells in both |
| `IouMeasure.IouScales` | edge-ai-detector-tensorrt-ros2/src/yolo_postprocess.cpp:11-20 | enlarging both boxes alike leaves IoU unchanged, so the grid may have any pitch |
| `IouMeasure.IouMoves` | edge-ai-detector-tensorrt-ros2/src/yolo_postprocess.cpp:11-20 | so does moving both |
| `Nms.Suppress` | edge-ai-detector-tensorrt-ros2/src/yolo_postprocess.cpp:40-52 | the flag-array loops keep exactly the capped survivors of the fixed-point definition |
| `Nms.MarkVictims` | edge-ai-detector-tensorrt-ros2/src/yolo_postprocess.cpp:46-50 | the inner loop flags exactly the later suppressed boxes, in place |
| `Nms.SortByScore` | edge-ai-detector-tensorrt-ros2/src/yolo_postprocess.cpp:38-39 | some score-descending permutation |
| `Nms.RunNms` | edge-ai-detector-tensorrt-ros2/src/yolo_postprocess.cpp:37-53 | for any sort result: equals the capped recursive greedy; sorted; no kept pair of a class has IoU above the threshold; at most max(1, max_out); below the cap every box is kept or has IoU above the threshold with a kept one of its class and no lower score |
| `Nms.GreedyIsSurvivors` | edge-ai-detector-tensorrt-ros2/src/yolo_postprocess.cpp:42-51 | recursive greedy and declarative survivors are the same |
| `Nms.SurvivorsUnique` | edge-ai-detector-tensorrt-ros2/src/yolo_postprocess.cpp:42-51 | the survivors are the only solution of "kept iff no earlier kept box suppresses it" |
| `Nms.SurvivorsCover` | edge-ai-detector-tensorrt-ros2/src/yolo_postprocess.cpp:46-50 | every box is kept or suppressed by a kept box of no lower score |
| `Nms.ClassesIndependent` | edge-ai-detector-tensorrt-ros2/src/yolo_postprocess.cpp:48-49 | the result restricted to a class is NMS of that class alone |
| `Nms.NmsIdempotent` | edge-ai-detector-tensorrt-ros2/src/yolo_postprocess.cpp:37-53 | NMS of its own output, re-sorted in any way, changes nothing |
| `Nms.CapsArePrefixes` | edge-ai-detector-tensorrt-ros2/src/yolo_postprocess.cpp:44-45 | results under growing caps are prefixes of each other and of the uncapped one |
| `Nms.OneOrder` | edge-ai-detector-tensorrt-ros2/src/yolo_postprocess.cpp:38-39 | if boxes of equal score are identical the sort has only one outcome |
| `Nms.TiesCanDiffer` | edge-ai-detector-tensorrt-ros2/src/yolo_postprocess.cpp:38-39 | a concrete tie for which two sort outcomes keep different boxes |
| `Nms.OrderHiddenIff` | edge-ai-detector-tensorrt-ros2/src/yolo_postprocess.cpp:37-53 | for sorted input and any cap: every other sort outcome gives the same result iff equal-scored boxes are identical wherever no kept box of higher score suppresses them and fewer than max(1, max_out) boxes of higher score are kept |
| `Nms.SingleHiddenIff` | edge-ai-detector-tensorrt-ros2/src/yolo_postprocess.cpp:37-53 | for a cap of at most 1, whatever the threshold: iff the highest score belongs to one box |
| `Nms.HiddenForAllThresholdsIff` | edge-ai-detector-tensorrt-ros2/src/yolo_postprocess.cpp:37-53 | for all thresholds at once, with room for all boxes or over all caps: iff no two different boxes share a score |
| `Letterbox.Fits` | edge-ai-detector-tensorrt-ros2/src/detector_node.cpp:45-49 | for all positive sizes the resized image is centred in the input, up to one odd pixel, fills one axis, and keeps the proportions of the frame to half a pixel |
| `Letterbox.EncodeDecode` | edge-ai-detector-tensorrt-ros2/src/detector_node.cpp:58-66 | each cell's position lies in its own plane and determines the cell |
| `Letterbox.DecodeEncode` | edge-ai-detector-tensorrt-ros2/src/detector_node.cpp:51-66 | every buffer position is such a cell |
| `Letterbox.ReadInRange` | edge-ai-detector-tensorrt-ros2/src/detector_node.cpp:56-63 | every source read is inside the image |
| `Letterbox.StorePixel` | edge-ai-detector-tensorrt-ros2/src/detector_node.cpp:60-66 | the three stores of a pixel change exactly its three cells |
| `Letterbox.LetterboxFrame` | edge-ai-detector-tensorrt-ros2/src/detector_node.cpp:40-70 | the nested loops leave every cell with its sampled pixel inside the window and 0.5 outside |
| `LetterboxSampling.SampleMonotone` | edge-ai-detector-tensorrt-ros2/src/detector_node.cpp:55-61 | further right or down in the output is never further left or up in the source |
| `LetterboxSampling.SampleIdentity` | edge-ai-detector-tensorrt-ros2/src/detector_node.cpp:55-61 | without scaling every pixel stands for itself |
| `LetterboxSampling.SampleNear` | edge-ai-detector-tensorrt-ros2/src/detector_node.cpp:55-61 | inside the resized image the sampled pixel is less than one source pixel from (p + 0.5) / scale - 0.5, and the upper clamp is never needed |
| `LetterboxSampling.WindowCell` | edge-ai-detector-tensorrt-ros2/src/detector_node.cpp:51-66 | the buffer at plane p, row and column of the window, row-major, is channel 2 - p of such a source pixel over 255 |
| `LetterboxSampling.PadCell` | edge-ai-detector-tensorrt-ros2/src/detector_node.cpp:51-51 | outside the window the buffer is 0.5 |
| `LetterboxSampling.OneColourFrame` | edge-ai-detector-tensorrt-ros2/src/detector_node.cpp:62-66 | a frame of one colour fills the window of plane 0 with its red, plane 1 with its green, plane 2 with its blue |
| `LetterboxSampling.SameSizeFrame` | edge-ai-detector-tensorrt-ros2/src/detector_node.cpp:45-61 | a frame of the input's own size is neither scaled nor padded nor moved |
| `Letterbox.UnletterboxInFrame` | edge-ai-detector-tensorrt-ros2/src/yolo_postprocess.cpp:23-33 | whatever the network reports, the result lies in the frame |
| `Letterbox.RoundTrip` | edge-ai-detector-tensorrt-ros2/src/yolo_postprocess.cpp:23-33 | letterbox then unletterbox is the identity exactly on boxes in the frame |
| `Letterbox.UnletterboxNearest` | edge-ai-detector-tensorrt-ros2/src/yolo_postprocess.cpp:23-33 | any reported box starts at the frame point nearest its unclamped start and is as near its size as fits from there |
| `YoloDecode.BestClass` | edge-ai-detector-tensorrt-ros2/src/yolo_postprocess.cpp:78-86 | the loop finds the first class of maximal positive score, or none |
| `YoloDecode.BestUnique` | edge-ai-detector-tensorrt-ros2/src/yolo_postprocess.cpp:78-86 | that description determines class and score |
| `YoloDecode.DecodeOne` | edge-ai-detector-tensorrt-ros2/src/yolo_postprocess.cpp:74-93 | one candidate yields its detection or nothing |
| `YoloDecode.DecodeRaw` | edge-ai-detector-tensorrt-ros2/src/yolo_postprocess.cpp:73-94 | the candidate loop yields all detections in order |
| `YoloDecode.DecodeYolo` | edge-ai-detector-tensorrt-ros2/src/yolo_postprocess.cpp:55-97 | the result is NMS of them, lies in the frame, reaches the threshold, belongs to a known class |
| `YoloRoundTrip.DecodesBack` | edge-ai-detector-tensorrt-ros2/src/yolo_postprocess.cpp:74-93 | a candidate that describes an in-frame detection (box in input space, objectness or none, first maximal class score) decodes to exactly it if confident enough, and to nothing otherwise |
| `YoloRoundTrip.DropsUnclassified` | edge-ai-detector-tensorrt-ros2/src/yolo_postprocess.cpp:78-88 | a candidate without a positive class score yields nothing |
| `YoloRoundTrip.RowInMemory` | edge-ai-detector-tensorrt-ros2/src/yolo_postprocess.cpp:60-71 | a candidate is a row of an N x A tensor or a column of an A x N one |
| `YoloRoundTrip.TensorDecodesBack` | edge-ai-detector-tensorrt-ros2/src/yolo_postprocess.cpp:73-94 | a tensor that describes detections decodes to the confident ones among them, in order |
| `YoloDecode.LayoutsAgree` | edge-ai-detector-tensorrt-ros2/src/yolo_postprocess.cpp:60-71 | an N x A tensor and its A x N transpose give the same raw detections and the same possible results |
| `YoloDecode.SkipHarmlessIff` | edge-ai-detector-tensorrt-ros2/src/yolo_postprocess.cpp:55-97 | for class scores up to a positive bound: on every tensor the skip changes none of the results decode_yolo may return iff the threshold is 0, or positive with the bound at most 2 |
| `YoloDecode.EarlySkipPreserves` | edge-ai-detector-tensorrt-ros2/src/yolo_postprocess.cpp:73-94 | on every tensor within that condition, skipping equals scoring every box |
| `CanPublisher.Publish` | edge-ai-detector-tensorrt-ros2/src/socketcan_publisher.cpp:55-87 | sends the packed detections in order until the first failing write; success iff all of min(n, 255) went out |
| `CanPublisher.HeaderBack` | edge-ai-detector-tensorrt-ros2/src/socketcan_publisher.cpp:67-73 | index, total and class come back exactly, a score in [0, 1] within 1/255 |
| `CanPublisher.PackClamps` | edge-ai-detector-tensorrt-ros2/src/socketcan_publisher.cpp:61-77 | class, score and centre outside their range are sent as the nearest end of it |
| `CanPublisher.ReceiverSees` | edge-ai-detector-tensorrt-ros2/src/socketcan_publisher.cpp:61-77 | for boxes in the frame the centre clamps do nothing, every byte fits, and the centre is off by less than 1/65535 |
| `DetectorPipeline.ProcessFrame` | edge-ai-detector-tensorrt-ros2/src/detector_node.cpp:170-197 | letterbox, decode and publish composed: every cell of the blob given to the network; the result is a possible decoding of the tensor, in the frame; exactly if ok all of min(n, 255) went out; each CAN frame gives back index, total, class, score within 1/255 and centre within 1/65535 |
| `Bmp280.RawWordParts` | i2c-sensor-kernel-driver/bmp280_simple.c:91-92 | the 20-bit word gives back its register parts |
| `Bmp280.TempFitsIff` | i2c-sensor-kernel-driver/bmp280_simple.c:97-108 | all nine intermediates fit 32 bits iff three products do |
| `Bmp280.TempInEnvelope` | i2c-sensor-kernel-driver/bmp280_simple.c:97-108 | inside the envelope nothing overflows and the wrapping code computes the formula |
| `Bmp280.TempCanWrap` | i2c-sensor-kernel-driver/bmp280_simple.c:97-108 | for some calibration words the result is wrong |
| `Bmp280.TempAccuracy` | i2c-sensor-kernel-driver/bmp280_simple.c:97-108 | all shifts together cost less than 0.01 degree against the exact formula |
| `Bmp280.TempMonotone` | i2c-sensor-kernel-driver/bmp280_simple.c:102-107 | a higher reading never gives a lower temperature when dig_t2 >= 16384 |
| `Bmp280Pressure.PressInEnvelope` | i2c-sensor-kernel-driver/bmp280_simple.c:111-137 | inside the envelope no intermediate wraps, the divisor is at least 27600, and the result is the formula's modulo 2^32 |
| `Bmp280Pressure.PressNoWrap` | i2c-sensor-kernel-driver/bmp280_simple.c:111-137 | for any calibration, if no intermediate overflows the C function computes the formula modulo 2^32 |
| `Bmp280Pressure.PressFitsIff` | i2c-sensor-kernel-driver/bmp280_simple.c:111-137 | for any calibration words: all intermediates fit iff a short list of products and sums does |
| `Bmp280Pressure.ZeroGain` | i2c-sensor-kernel-driver/bmp280_simple.c:122-125 | with dig_p1 = 0 the zero-divisor guard reports 0 for every reading |
| `Bmp280Limits.PressExactIff` | i2c-sensor-kernel-driver/bmp280_simple.c:127-136 | inside the envelope it is the formula's value iff 6250 times the span reaches the calibration's threshold times the divisor |
| `Bmp280Limits.NonNegativeIff` | i2c-sensor-kernel-driver/bmp280_simple.c:133-136 | the corrected quotient is not negative iff it reaches a threshold that depends on the calibration alone |
| `Bmp280Limits.ThresholdZeroIff` | i2c-sensor-kernel-driver/bmp280_simple.c:133-136 | that threshold is at most 2500, and 0 iff dig_p7 is not negative |
| `Bmp280Limits.AlwaysExactIff` | i2c-sensor-kernel-driver/bmp280_simple.c:111-137 | no reading wraps if dig_p7 is not negative, and only then where a reading can be level with the offset |
| `Bmp280Limits.CorrectionBounded` | i2c-sensor-kernel-driver/bmp280_simple.c:133-136 | a quotient of at least 2500 stays non-negative after correction |
| `Bmp280Limits.PressCanWrap` | i2c-sensor-kernel-driver/bmp280_simple.c:127-136 | a reading level with the offset and a negative dig_p7 is reported as nearly 2^32 Pa |
| `Bmp280Limits.WrapExample` | i2c-sensor-kernel-driver/bmp280_simple.c:127-136 | such a measurement exists inside the envelope |
| `Bmp280Pressure.OffsetCanWrap` | i2c-sensor-kernel-driver/bmp280_simple.c:111-137 | outside the envelope the arithmetic itself overflows: with an ordinary divisor, 13445 is returned instead of 75589 Pa |
| `Bmp280Pressure.QuotientIsHalfUnitExact` | i2c-sensor-kernel-driver/bmp280_simple.c:128-131 | the two-branch quotient is floor(2p/v) or one less, and which of the two |
| `Bmp280Limits.ReadingAlmostMonotone` | i2c-sensor-kernel-driver/bmp280_simple.c:127-131 | a higher reading raises the quotient by at most one |
| `Bmp280Limits.PressAlmostMonotone` | i2c-sensor-kernel-driver/bmp280_simple.c:127-136 | and the pressure by at most 3 Pa |
| `Bmp280Accuracy.PressAccuracy` | i2c-sensor-kernel-driver/bmp280_simple.c:111-137 | all shifts together cost less than 46.5 Pa against the floating-point formula of the datasheet |
| `Bmp280Accuracy.MeasureCorrect` | i2c-sensor-kernel-driver/bmp280_simple.c:139-154 | from the six registers: temperature within one unit of exact; pressure within 46.5 Pa of exact iff the reading is far enough above the offset, and above 2 * 10^9 otherwise |
| `V4l2Capture.DropsTelescope` | zero-copy-v4l2-capture/src/v4l2_capture.cpp:207-223 | without wrap, captured + dropped = last - first + 1 |
| `V4l2Capture.DropsNeverOvercount` | zero-copy-v4l2-capture/src/v4l2_capture.cpp:207-218 | against the true counter, never too many, and exact iff no loss straddles the 32-bit wrap |
| `V4l2Capture.TrulyLostTotal` | zero-copy-v4l2-capture/src/v4l2_capture.cpp:207-218 | the true losses plus the frames seen fill the counter range |
| `V4l2Capture.Capture.Open` | zero-copy-v4l2-capture/src/v4l2_capture.cpp:112-163 | fewer than two buffers is refused, otherwise the driver holds them all |
| `V4l2Capture.Capture.QueueBuffer` | zero-copy-v4l2-capture/src/v4l2_capture.cpp:153-159 | succeeds exactly for a known buffer the driver does not hold |
| `V4l2Capture.Capture.Start` | zero-copy-v4l2-capture/src/v4l2_capture.cpp:165-172 | a new session counts gaps afresh |
| `V4l2Capture.Capture.Account` | zero-copy-v4l2-capture/src/v4l2_capture.cpp:207-223 | the in-place counters stay equal to the session's drop and frame counts |
| `V4l2Capture.Capture.Next` | zero-copy-v4l2-capture/src/v4l2_capture.cpp:174-235 | one buffer passes to the caller, pointing at its own slot; statistics follow; timeouts and errors change nothing |
| `V4l2Capture.Capture.Release` | zero-copy-v4l2-capture/src/v4l2_capture.cpp:237-239 | succeeds exactly for a frame still out, so a second release is refused |
| `V4l2Capture.Capture.Stop` | zero-copy-v4l2-capture/src/v4l2_capture.cpp:241-253 | the driver's queue is emptied and not refilled |
| `V4l2Capture.Capture.Restart` | zero-copy-v4l2-capture/src/v4l2_capture.cpp:165-253 | stop then start succeeds but leaves the driver without a buffer, so it can deliver nothing |
| `V4l2Capture.AnyClient` | zero-copy-v4l2-capture/src/v4l2_capture.cpp:174-239 | for every client script, driver-held and application-held buffers partition all buffers |
| `V4l2Capture.GrabOne` | zero-copy-v4l2-capture/src/main.cpp:91-108 | one iteration takes and returns one frame; in between the driver has at least n - 1 |
| `V4l2Capture.GrabAll` | zero-copy-v4l2-capture/src/main.cpp:90-109 | the loop itself: answers used, frames grabbed, reason for stopping |
| `V4l2Capture.CaptureLoop` | zero-copy-v4l2-capture/src/main.cpp:90-109 | the loop never leaves the driver fewer than n - 1 >= 1 buffers and returns all; it has thrown iff the last answer used was an error; it took exactly the buffers among the answers used; its counters account for the session |
| `DramWalk.SaveAndFill` | uboot-fast-boot-gpio/src/cmd_diag.c:79-82 | first pass over an aliasing address map: every cell and every saved word |
| `DramWalk.CheckAndRestore` | uboot-fast-boot-gpio/src/cmd_diag.c:83-87 | second pass: error count and every cell |
| `DramWalk.Walk` | uboot-fast-boot-gpio/src/cmd_diag.c:71-90 | zero errors iff no two words share a cell, and then memory is restored exactly; otherwise what each cell ends up with |
| `DramWalk.ZeroErrorsIff` | uboot-fast-boot-gpio/src/cmd_diag.c:83-89 | the same for the specification, whatever memory held |
| `DramWalk.PatternHalves` | uboot-fast-boot-gpio/src/cmd_diag.c:81-81 | a pattern is 0xA5A5 above and the word's number below |
| `DramWalk.AliasDestroys` | uboot-fast-boot-gpio/src/cmd_diag.c:86-86 | a shared cell comes back as it was iff it held the pattern of the last word but one that maps to it |
| `RollingStats.Ring.Add` | gstreamer-multithread-pipeline/include/gstpipe/latency_tracker.hpp:29-39 | after any adds the ring unrolled from the cursor is the recent history; cursor = n mod window; the sum is over all samples |
| `RollingStats.Ring.HoldsRecent` | gstreamer-multithread-pipeline/include/gstpipe/latency_tracker.hpp:29-39 | the buffer is the multiset of the last min(n, window) samples |
| `RollingStats.Ring.LatencySnapshot` | gstreamer-multithread-pipeline/include/gstpipe/latency_tracker.hpp:41-56 | minimum, maximum and p95 of the window, lifetime mean, zeros when empty |
| `RollingStats.Ring.TakeSnap` | edge-ai-detector-tensorrt-ros2/include/edge_ai_detector/benchmark.hpp:34-46 | p50 <= p90 <= p99 <= max are order statistics of the window, lifetime mean |
| `RollingStats.QuantileRank` | edge-ai-detector-tensorrt-ros2/include/edge_ai_detector/benchmark.hpp:38-43 | at least min(n, floor(n p) + 1) samples of the window are at most the quantile, at least n - floor(n p) are at least it, and it is one of them |
| `RollingStats.SortUnique` | edge-ai-detector-tensorrt-ros2/include/edge_ai_detector/benchmark.hpp:37-38 | a sort of reals has only one outcome |
| `RollingStats.MeanIsWindowedIff` | gstreamer-multithread-pipeline/include/gstpipe/latency_tracker.hpp:36-51 | lifetime mean = window mean iff the evicted samples have the same mean |
| `CanTelemetry.Be16Put` | vcan-socketcan-telemetry-bridge/src/can_common.h:30-39 | two bytes written in place, read back exactly |
| `CanTelemetry.Be24Put` | vcan-socketcan-telemetry-bridge/src/can_common.h:41-51 | three bytes written in place, read back modulo 2^24 |
| `CanTelemetry.FillEngine` | vcan-socketcan-telemetry-bridge/src/can_tx.c:75-98 | the engine frame of a tick, after redline and clamp |
| `CanTelemetry.FillVehicle` | vcan-socketcan-telemetry-bridge/src/can_tx.c:101-106 | the vehicle frame of a tick |
| `CanTelemetry.EngineDecoded` | vcan-socketcan-telemetry-bridge/src/can_rx.c:80-84 | RPM comes back within a quarter turn, coolant to the degree, throttle within 0.2 %, MIL exactly |
| `CanTelemetry.VehicleDecoded` | vcan-socketcan-telemetry-bridge/src/can_rx.c:97-99 | speed within 0.005 km/h, odometer modulo 2^24 |
| `CanTelemetry.TickAlerts` | vcan-socketcan-telemetry-bridge/src/can_rx.c:89-108 | a tick raises no alert, with redline exactly the coolant one; RPM never exceeds 4095.75 |
| `CanTelemetry.AlertsByField` | vcan-socketcan-telemetry-bridge/src/can_rx.c:80-109 | a frame alerts iff its engine field exceeds 26000, its coolant byte 150, or its speed field 18000 |
| `CanTelemetry.FramesAtRest` | vcan-socketcan-telemetry-bridge/src/can_tx.c:89-106 | the frames of a tick at rest, byte for byte, with and without redline |
| `CanTelemetry.CycleAffine` | vcan-socketcan-telemetry-bridge/src/can_tx.c:75-79 | throttle, engine speed and coolant are affine in the waves |
| `CanTelemetry.CycleValues` | vcan-socketcan-telemetry-bridge/src/can_tx.c:75-82 | their values at the ends of the waves, and what redline adds |
| `CanTelemetry.CoolantWarms` | vcan-socketcan-telemetry-bridge/src/can_tx.c:78-79 | coolant rises towards 95 degrees and stays below |
| `CanTelemetry.RateScales` | vcan-socketcan-telemetry-bridge/src/can_tx.c:87-87 | a rate that is not positive counts as 10 Hz; twice the rate is half the distance per tick |
| `CanTelemetry.RunAlerts` | vcan-socketcan-telemetry-bridge/src/can_rx.c:80-109 | for every prefix of every run: 0 alerts, or one per engine frame with redline |
| `CanTelemetry.Advance` | vcan-socketcan-telemetry-bridge/src/can_tx.c:111-112 | the next deadline, normalised |
| `CanTelemetry.Transmit` | vcan-socketcan-telemetry-bridge/src/can_tx.c:64-114 | frames, odometer and deadlines of a whole run, cut at a failing write with the odometer as of that tick; deadline k is t0 + k * period |
| `CanTelemetry.Receive` | vcan-socketcan-telemetry-bridge/src/can_rx.c:65-110 | frames and alerts counted, last speed remembered |
| `CanTelemetry.Drive` | vcan-socketcan-telemetry-bridge/src/can_rx.c:65-110 | transmitter to receiver over a whole run |
| `CanTelemetry.OdometerLag` | vcan-socketcan-telemetry-bridge/src/can_tx.c:87-87 | before wrap the odometer lags the distance by 0 to less than n metres after n ticks |
| `DriveCycle.CycleSpeed` | vcan-socketcan-telemetry-bridge/src/can_tx.c:75-77 | the two sines never peak together, so the speed stays at or below 53.3 km/h |
| `DriveCycle.TickFrozen` | vcan-socketcan-telemetry-bridge/src/can_tx.c:75-87 | from 14.81 Hz on no tick moves the odometer |
| `DriveCycle.WindowHeight` | vcan-socketcan-telemetry-bridge/src/can_tx.c:75-77 | around the peak of the cycle 24 sin x + 8 sin 6x stays at or above 31.172 |
| `DriveCycle.WindowTick` | vcan-socketcan-telemetry-bridge/src/can_tx.c:75-109 | no run with a phase step of at most 0.02455 jumps over that stretch |
| `DriveCycle.OdometerMoves` | vcan-socketcan-telemetry-bridge/src/can_tx.c:70-109 | up to 14.77 Hz every run of at least n ticks, for an n that depends on the step only, moves it |
| `DriveCycle.OdometerMovesIff` | vcan-socketcan-telemetry-bridge/src/can_tx.c:70-109 | at a whole rate a long enough run moves it iff the rate is at most 14 Hz |
| `DriveCycle.OdometerFrozen` | vcan-socketcan-telemetry-bridge/src/can_tx.c:87-87 | from 14.81 Hz on it reads 0 for the whole run |

## Left out

- Rounding of `float` and `double`, and the finer memory orderings of the atomics: reals and sequentially consistent reads are used instead.
- Mutex acquisition itself: critical sections are atomic steps; fairness of the lock and of the condition variable is not modelled.
- `attach`, media configuration beyond the attach step, `url` and all GStreamer, RTSP, TensorRT, CUDA, OpenCV and ROS 2 calls.
- Whether the RTSP stream is decodable: when the gate reopens inside a group, delta frames follow without the skipped ones, so only the gate rule is claimed.
- Duration and data bytes of the buffers offered to appsrc: copied or constant, no property of interest.
- Sockets, CAN filters, short and failed reads in the receiver, `ioctl`, `mmap`, `poll` and EINTR details, DMABUF export, format negotiation.
- The latency fields and averages of the capture statistics, and 64-bit overflow of those counters.
- Re-use of a stale frame handle after its buffer was dequeued again: the driver accepts it, and so does the model.
- Calibration register reading (`bmp280_read_calib`), probe and sysfs: plain little-endian loads and plumbing.
- OdometerMoves: fractional rates between 14.77 and 14.81 Hz are not decided, because the exact line is the root of a polynomial of high degree; rates so low that one tick overflows the 32-bit odometer are excluded.
- DRAM faults other than aliasing, such as stuck bits.
- CSV traces, RSS sampling, telemetry printing, CLI parsing, LEDs, device tree, Yocto recipes, label and FourCC helpers: easy or no property.
