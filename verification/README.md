# A DHT11 sensor driver on the BCM2835: model and proofs

The repository is a Linux character driver for the DHT11 temperature and humidity sensor on a
Raspberry Pi, the BCM2835 peripheral library it is built on, and a UDP server that answers
with the sensor's readings. This project models the algorithms that face the hardware as the
loops they are, running against peripherals that move on their own between any two register
accesses, and the path of a reading from the sensor's pulses to the server's reply.

Peripherals are classes. Before each access they take any number of steps of their own, so a
status word may show any state the hardware could have reached by then. For the two SPI
peripherals these steps are a plan, an arbitrary function of the number of accesses: a run is
determined by its plan, so that what some hardware can do to a transfer can be stated next to
what no hardware can do. FIFO depths, the device at the other end, bit order, latencies and
buffers are arbitrary. The methods of the driver are proved against specifications of whole
transfers; that they terminate, or exactly when they do not, is part of what is proved.

| file | what it holds |
|---|---|
| `Options.dfy`, `Arithmetic.dfy` | missing values, integer widths, division by a variable |
| `BitOrder.dfy` | the byte reversal table of SPI transfers |
| `Wire.dfy` | the byte-by-byte exchange every SPI transfer has to amount to |
| `Fifo.dfy` | a pair of FIFOs with a wire between them, as counts, under any behaviour of the hardware |
| `SpiFlow.dfy`, `Spi0.dfy` | the counts of an SPI0 transfer; the SPI0 peripheral and its polled transfers |
| `AuxWords.dfy`, `AuxFlow.dfy` | packing bytes in words; the counts of an auxiliary SPI transfer |
| `AuxSpi.dfy`, `AuxDriver.dfy` | the auxiliary SPI peripheral, its transfers |
| `I2c.dfy` | the BSC peripheral and the I2C write and reads |
| `SystemTimer.dfy` | the 64-bit timer read in halves |
| `ClockDivider.dfy` | bus speeds to dividers |
| `Gpio.dfy` | packed function-select and pull fields, masked output |
| `Frame.dfy`, `Dht11.dfy` | the 40-bit frame and its checksum, sampling and decoding |
| `Text.dfy`, `CharDevice.dfy`, `Server.dfy` | printing and parsing, the device, the server's commands |

What is assumed of the hardware:

- SPI0 and auxiliary SPI keep their order, never invent bytes, hold a finished byte or word
  back while the RX FIFO is full, and do not put off a possible step for ever (`patience`).
  DONE means TA is set and nothing is left to send; BUSY means something is.
- `bcm2835_aux_spi_transfernb` finds nothing under way and nothing unread. The source does not
  see to that: `bcm2835_aux_spi_write` leaves its answer in the RX FIFO, and a transfer that
  underran may leave answers too. `bcm2835_aux_spi_writenb` is described from any state in
  which it returns.
- The I2C status register may say anything, except that TXD promises room and RXD a byte.
- Time does not run backwards. A register access takes between `least` and `most` ticks.

Where the code differs from its documentation, the model follows the code:

- `bcm2835_i2c_write_read_rs` is documented to send an arbitrary number of command bytes; it
  sends at most 16 (`I2c.WriteReadRs`).
- The time-out count of `bcm2835_i2c_write` is a product taken in 32 bits; above 4294967 bytes
  it falls short of a thousand polls a byte (`I2c.FuelForLength`, `I2c.FailsafeOverflows`).
- `bcm2835_i2c_write` and the repeated-start reads end by setting the DONE bit in the control
  register, not in the status register; only `bcm2835_i2c_read` writes it to the latter.
- `bcm2835_st_read` is documented to return the lower 32 bits; it returns all 64.
- `bcm2835_aux_spi_transfernb` is documented to transfer any number of bytes. Its third loop
  reads IO without looking at RX_EMPTY, and when it finds the hardware idle with bytes still to
  send it takes words that never arrived. With FIFOs of d words that can happen exactly to
  messages of more than 3 * d bytes, and exactly to those of more than 9 * d + 3 bytes it can
  happen that the function never returns (`AuxDriver.LengthLimits`, `AuxDriver.TooLong`). In
  place, and wherever else the receive buffer meets the message behind its first 3 * d bytes, the
  message itself can then be lost (`AuxDriver.OverrunExactly`, `AuxDriver.Overwritten`).
- `bcm2835_spi_transfernb` is documented to transfer any number of bytes between two buffers,
  without a word on overlap. It is exact for every overlap unless the receive buffer starts
  inside the transmit buffer, after its start, and the message outgrows the FIFO; for every
  such case there is hardware with which the wire carries other bytes than the message
  (`SpiFlow.OvertakenExactly`, `Spi0.Driver.Overwritten`).
- Temperatures between -0.99 and -0.01 degrees are printed without their sign
  (`Text.NumberRoundTrip`, `Server.LostSign`).

## Model

| member | source | states |
|---|---|---|
| BitOrder.TableReverses | yyk99_extra/package/termosos/driver/bcm2835.c:85-119 | each of the 256 table entries is its index with the bits in opposite order |
| BitOrder.ReversedBits | yyk99_extra/package/termosos/driver/bcm2835.c:85-119 | bit i of a reversed byte is bit 7-i of the byte |
| BitOrder.CorrectOrderIs | yyk99_extra/package/termosos/driver/bcm2835.c:121-127 | with order 0 every byte is reversed, with any other none is |
| BitOrder.CorrectOrderInvolutive | yyk99_extra/package/termosos/driver/bcm2835.c:121-127 | in either bit order, and for any value of the setting, correcting twice changes nothing |
| Wire.LoopbackIsIdentity | yyk99_extra/package/termosos/driver/bcm2835.c:121-127 | an echoing device returns the message in both bit orders |
| Wire.OnTheWire | yyk99_extra/package/termosos/driver/bcm2835.c:732-772 | the wire grows by the bytes of the message, each reversed if the order is 0 |
| Wire.InTheBuffer | yyk99_extra/package/termosos/driver/bcm2835.c:732-772 | byte i received is the device's answer to byte i on the wire after all before it, reversed if the order is 0 |
| Wire.ReplySplits | yyk99_extra/package/termosos/driver/bcm2835.c:732-772 | one transfer of a message has the same replies as two transfers of its parts, for every device |
| Spi0.Peripheral.Valid | yyk99_extra/package/termosos/driver/bcm2835.c:751-765 | bytes written to the FIFO are in TX, in flight, in RX or read back, none lost and none made up |
| Spi0.Driver.FillTx | yyk99_extra/package/termosos/driver/bcm2835.c:754-758 | the next bytes go out in order and never into a full FIFO, and the counts change as the hardware's plan says |
| Spi0.Driver.DrainRx | yyk99_extra/package/termosos/driver/bcm2835.c:760-764 | replies land at their places, RX never overtakes TX, no read from an empty FIFO |
| Spi0.Driver.TransferNb | yyk99_extra/package/termosos/driver/bcm2835.c:732-772 | for every length, overlap and behaviour of the hardware it returns with the message on the wire and the answers in the buffer, all bytes reversed if and only if the order is 0; byte i sent is the one at the call, or the reply byte stored over it if that came in first; it is the message whenever the buffers cannot disturb each other; memory outside the receive buffer is untouched |
| Spi0.Driver.Overwritten | yyk99_extra/package/termosos/driver/bcm2835.c:732-772 | with a device that answers 1, and hardware that waits until TX is full, no message of zeros that the reply can overtake arrives |
| SpiFlow.OvertakenExactly | yyk99_extra/package/termosos/driver/bcm2835.c:751-765 | some hardware lets the reply overtake the message exactly if the receive buffer starts inside the transmit buffer, after its start, and the message outgrows the FIFO |
| SpiFlow.TurnProgress | yyk99_extra/package/termosos/driver/bcm2835.c:751-765 | no deadlock: every round sends, moves the hardware, receives or uses up its patience, and RX and TX counts stay in balance |
| Spi0.Driver.TransferN | yyk99_extra/package/termosos/driver/bcm2835.c:820-823 | in place the reply is the same as with disjoint buffers |
| Spi0.Driver.AwaitRoom | yyk99_extra/package/termosos/driver/bcm2835.c:796-797 | the wait for TXD ends: TX and RX are never both full there with a byte in flight, so the hardware can move |
| Spi0.Driver.AwaitDone | yyk99_extra/package/termosos/driver/bcm2835.c:767-768 | the wait for DONE ends, with everything sent and every answer read or waiting |
| Spi0.Driver.DiscardRx | yyk99_extra/package/termosos/driver/bcm2835.c:803-804 | draining RX ends with RX empty and loses nothing that was to be sent |
| Spi0.Driver.WriteNb | yyk99_extra/package/termosos/driver/bcm2835.c:775-815 | for every length, far beyond the FIFO too, it returns with exactly the message on the wire, reversed if the order is 0 |
| Spi0.Driver.Transfer | yyk99_extra/package/termosos/driver/bcm2835.c:695-729 | one byte out, the device's answer to it back, both reversed if the order is 0 |
| AuxWords.ChunksRoundTrip | yyk99_extra/package/termosos/driver/bcm2835.c:986-1000 | the chunks of a message, three bytes each and then the rest, concatenate to the message |
| AuxWords.PackedWordSendsItsBytes | yyk99_extra/package/termosos/driver/bcm2835.c:1047-1055 | the tag is eight times the byte count and never overlaps the data; the word sends exactly its bytes |
| AuxWords.TxWordIs | yyk99_extra/package/termosos/driver/bcm2835.c:1047-1064 | a transmit word: eight times the count in bits 31 to 24, the bytes from bit 23 down, zeros below |
| AuxSpi.FramedIs | yyk99_extra/package/termosos/driver/bcm2835.c:1046-1064 | word k of ceil(len/3) carries bytes 3k to 3k+2 or up to the last, and only the last word goes to IO |
| AuxWords.UnpackReceived | yyk99_extra/package/termosos/driver/bcm2835.c:1067-1083 | the fall-through switch recovers right-justified bytes whatever stands above them |
| AuxWords.UnpackIs | yyk99_extra/package/termosos/driver/bcm2835.c:1070-1083 | the bytes stored are the low bytes of the word, the last one lowest |
| AuxWords.WordLoopback | yyk99_extra/package/termosos/driver/bcm2835.c:1046-1086 | packing left-justified, echoing and unpacking right-justified is the identity on chunks |
| Wire.AnswersFlatten | yyk99_extra/package/termosos/driver/bcm2835.c:1044-1109 | cutting a message into words does not change the device's answers |
| AuxDriver.PackWord | yyk99_extra/package/termosos/driver/bcm2835.c:1047-1055 | the packing loop builds the word of the bytes in memory, or of zeros for a null pointer |
| AuxDriver.StoreWord | yyk99_extra/package/termosos/driver/bcm2835.c:1071-1083 | exactly the bytes of the count are stored, nothing else in memory changes |
| AuxFlow.Ends | yyk99_extra/package/termosos/driver/bcm2835.c:1044-1109 | whatever the hardware does, a transfer ends or comes to wait for room in TX while the hardware waits for room in RX, which is not read any more |
| AuxFlow.StuckStays | yyk99_extra/package/termosos/driver/bcm2835.c:1044-1109 | that wait is permanent: no number of rounds changes anything |
| AuxFlow.OutcomeDecides | yyk99_extra/package/termosos/driver/bcm2835.c:1044-1109 | for each behaviour of the hardware, a run never ends exactly if it has read more empty words than two FIFOs and the wire hold |
| AuxFlow.WorstCases | yyk99_extra/package/termosos/driver/bcm2835.c:1044-1109 | some hardware makes a transfer underrun exactly if its words outgrow the FIFO, and keeps it from ending exactly if they outgrow three FIFOs and the wire |
| AuxDriver.LengthLimits | yyk99_extra/package/termosos/driver/bcm2835.c:1044-1109 | the same in bytes: more than 3 * depth, and more than 9 * depth + 3 |
| AuxDriver.TooLong | yyk99_extra/package/termosos/driver/bcm2835.c:1044-1109 | on FIFOs of four words that wait until TX is full, 13 bytes underrun, 39 bytes still end and 40 bytes never do |
| AuxDriver.DrainIdle | yyk99_extra/package/termosos/driver/bcm2835.c:1088-1108 | the loop that ignores RX_EMPTY is harmless once everything is written; otherwise it reads an empty FIFO |
| AuxDriver.TransferNb | yyk99_extra/package/termosos/driver/bcm2835.c:1018-1110 | every run that returns sends the whole message in correct framing, byte by byte as memory holds it when it is fetched, which is as it was at the call for all buffers the reply cannot run over; the receive buffer gets the answers to what went out, as far as they arrived, and noise after them; it underruns, and never ends, exactly if the counts do under the hardware's plan |
| AuxDriver.OverrunExactly | yyk99_extra/package/termosos/driver/bcm2835.c:1018-1110 | some hardware lets what is stored run over bytes still to be fetched exactly if the receive buffer meets the message behind its first 3 * depth bytes |
| AuxDriver.Overwritten | yyk99_extra/package/termosos/driver/bcm2835.c:1018-1110 | in all these runs, with a device and empty reads that give ones, a message of zeros does not go out |
| AuxFlow.LateLeads | yyk99_extra/package/termosos/driver/bcm2835.c:1044-1086 | no word is stored before a FIFO's worth of words, or all, have been fetched |
| AuxDriver.TransferN | yyk99_extra/package/termosos/driver/bcm2835.c:1114-1116 | in place, without underrun, the answers replace the message; with one, the words sent are what memory held when they were fetched; the outcome is that of the counts |
| AuxDriver.WriteNb | yyk99_extra/package/termosos/driver/bcm2835.c:962-1013 | ceil(len/3) words go out, all but the last by TXHOLD, after whatever was on its way, their bytes are the message, and nothing is left under way; words left unread before only stay as many |
| Fifo.BusyForever | yyk99_extra/package/termosos/driver/bcm2835.c:1008-1009 | the wait for BUSY to clear ends exactly if no more words are under way than the RX FIFO holds |
| I2c.Write | yyk99_extra/package/termosos/driver/bcm2835.c:1238-1323 | it returns whatever the device does; the FIFO gets a prefix of the buffer; the register writes one by one; time-out exactly when polls and refills use up the 32-bit count, and then 999 polls a byte saw DONE clear; otherwise, after DONE, NACK exactly for ERR, CLKT exactly for CLKT without ERR, and then OK exactly if all bytes were pushed |
| I2c.Feed | yyk99_extra/package/termosos/driver/bcm2835.c:1276-1297 | time-out exactly when polls and refilled bytes use up the count, through the second decrement that wraps |
| I2c.DoneClearCounts | yyk99_extra/package/termosos/driver/bcm2835.c:1276-1276 | the polls counted are the status words with DONE clear |
| I2c.FuelForLength | yyk99_extra/package/termosos/driver/bcm2835.c:1255 | the count allows a thousand decrements a byte exactly up to 4294967 bytes or for multiples of 2^29 |
| I2c.FailsafeOverflows | yyk99_extra/package/termosos/driver/bcm2835.c:1255 | with 4294968 bytes the count is 704 |
| I2c.Receive | yyk99_extra/package/termosos/driver/bcm2835.c:1354-1391 | both drain loops store what was popped, in order, within the length; after DONE, NACK exactly for ERR, CLKT exactly for CLKT without ERR, and then OK exactly if all bytes arrived; it is still polling only if DONE was kept clear |
| I2c.Read | yyk99_extra/package/termosos/driver/bcm2835.c:1326-1396 | the popped bytes are the start of the buffer and of what the device delivered, the rest is untouched; the reasons as in Receive; the register writes one by one |
| I2c.ReadRegisterRs | yyk99_extra/package/termosos/driver/bcm2835.c:1401-1487 | the register writes one by one, with the register address, and the same for the bytes read and the reasons |
| I2c.WriteReadRs | yyk99_extra/package/termosos/driver/bcm2835.c:1492-1591 | sends exactly the first min(len, 16) command bytes, the whole command if and only if it fits; the register writes one by one; the same for the bytes read and the reasons |
| SystemTimer.Linearizable | yyk99_extra/package/termosos/driver/bcm2835.c:1798-1819 | halves read at four moments of a running counter give a value between the first and the last |
| SystemTimer.Clock.StRead | yyk99_extra/package/termosos/driver/bcm2835.c:1789-1820 | the count at one instant during the call, however long the reads take, while 64 bits do not wrap |
| SystemTimer.Clock.ReadTwice | yyk99_extra/package/termosos/driver/bcm2835.c:1789-1820 | successive reads never decrease, and differ by at least the time between them |
| SystemTimer.Clock.StDelay | yyk99_extra/package/termosos/driver/bcm2835.c:1823-1829 | returns not before the timer reaches the sum and at most two reads after it; without a mapped timer it returns for the sum 0 |
| ClockDivider.AuxDividerOptimal | yyk99_extra/package/termosos/driver/bcm2835.c:914-931 | from 30500 Hz to 125 MHz the smallest divider whose clock, 250 MHz / (2 (d + 1)), does not exceed the speed, or 4095 |
| ClockDivider.AuxDividerClamps | yyk99_extra/package/termosos/driver/bcm2835.c:918-922 | below 30500 Hz the divider is 4095, above 125 MHz it is 0 |
| ClockDivider.AuxDividerExact | yyk99_extra/package/termosos/driver/bcm2835.c:924-930 | neither the 32-bit sum nor the 16-bit casts lose anything, for any speed |
| ClockDivider.AuxDividerAntitone | yyk99_extra/package/termosos/driver/bcm2835.c:914-931 | a higher speed never gets a larger divider |
| ClockDivider.SpiDividerOptimal | yyk99_extra/package/termosos/driver/bcm2835.c:680-685 | the largest even divider whose clock is not below the speed, exactly from 3815 Hz to 125 MHz |
| Gpio.SelectedBits | yyk99_extra/package/termosos/driver/bcm2835.c:230-267 | one gpio_fsel sets bits 3 (pin mod 10) to 3 (pin mod 10) + 2 of word pin / 10 to the low three mode bits, and leaves those of every other pin alone |
| Gpio.PinFour | yyk99_extra/package/termosos/driver/bcm2835.c:259-267 | on cleared registers pin 4 as output is bit 12 of the first word |
| Gpio.FselRefinesMap | yyk99_extra/package/termosos/driver/bcm2835.c:259-267 | after any calls with any modes the bits of every pin, where the layout has them, are its last mode, or what they were |
| Gpio.PudRoundTrip | yyk99_extra/package/termosos/driver/bcm2835.c:561-619 | after any calls get_pud gives every pin's last legal setting; illegal settings change nothing |
| Gpio.PulledBits | yyk99_extra/package/termosos/driver/bcm2835.c:561-586 | one set_pud sets bits 2 (pin mod 16) and the next of word pin / 16: 1 for up, 2 for down, 0 for off; nothing for an illegal setting |
| Gpio.GetPudIs | yyk99_extra/package/termosos/driver/bcm2835.c:599-619 | get_pud reads the same two bits: 0 off, 1 up, 2 down, 3 the error value |
| Gpio.Bank.Fsel | yyk99_extra/package/termosos/driver/bcm2835.c:259-267 | in the registers the bits of the pin are the low three of the mode afterwards, those of every other pin what they were |
| Gpio.Bank.SetPud | yyk99_extra/package/termosos/driver/bcm2835.c:561-586 | the bits of the pin and what get_pud then answers for every pin; nothing changes for an illegal setting |
| Gpio.Bank.WriteMask | yyk99_extra/package/termosos/driver/bcm2835.c:534-538 | the set and the clear together write exactly the masked outputs |
| Frame.FrameRoundTrip | yyk99_extra/package/termosos/driver/dht11.c:27-39 | collecting the bits of a frame gives its five bytes |
| Frame.FrameBitAt | yyk99_extra/package/termosos/driver/dht11.c:27-39 | bit k of a frame is bit 7 - k mod 8 of byte k / 8 |
| Frame.ByteAtIs | yyk99_extra/package/termosos/driver/dht11.c:27-39 | a collected byte is the weighted sum of its eight bits, the first weighing 128 |
| Frame.FrameMeans | yyk99_extra/package/termosos/driver/dht11.c:86-97 | the sum test, 100 times and 10 times the two humidity bytes, the same for the temperature with the top bit as its sign |
| Frame.SingleFlipCaught | yyk99_extra/package/termosos/driver/dht11.c:86 | every single-bit error of a valid frame is rejected |
| Frame.DoubleFlipCaught | yyk99_extra/package/termosos/driver/dht11.c:86 | a double error is accepted exactly if both bits share a column and cancel, or share the top column |
| Dht11.Line.WaitFor | yyk99_extra/package/termosos/driver/dht11.c:62-70 | on any line at most 1999 polls; an edge within them is noticed within one access |
| Dht11.Measured | yyk99_extra/package/termosos/driver/dht11.c:72-73 | time stamps within the slack of the edges classify the pulse by its width |
| Dht11.Sensor.Sample | yyk99_extra/package/termosos/driver/dht11.c:55-74 | at most 83 * 1999 polls on any line; a transmission within the timing leaves exactly its bits |
| Dht11.Sensor.GetByte | yyk99_extra/package/termosos/driver/dht11.c:27-39 | the loop over eight entries is the byte they spell |
| Dht11.Sensor.Decode | yyk99_extra/package/termosos/driver/dht11.c:76-99 | bytes, acceptance exactly if the fifth is the sum of the others mod 256, sign and readings in terms of the bytes; a rejected frame leaves the readings as they were |
| Dht11.Sensor.GetData | yyk99_extra/package/termosos/driver/dht11.c:44-100 | every transmitted frame is read as sent under any jitter within the slack, and accepted exactly if its checksum is right |
| Dht11.TransmissionOf | yyk99_extra/package/termosos/driver/dht11.c:11-25 | for every 40 bits there is a line with the sensor's usual pulse widths that meets the timing |
| Text.NumberRoundTrip | yyk99_extra/package/termosos/driver/main.c:62-68 | a printed number parses back to its hundredths exactly unless it is between -99 and -1 |
| Text.FindIsFirst | yyk99_extra/package/termosos/udpserver/server.c:85-101 | the search finds the first occurrence, or there is none |
| CharDevice.TextFits | yyk99_extra/package/termosos/driver/main.c:58-70 | for every frame the text fits its 80 bytes |
| CharDevice.HumidityText | yyk99_extra/package/termosos/driver/main.c:62-68 | for every frame: the integral byte, with what the decimal one carries, a point, the decimal digit and a zero |
| CharDevice.TemperatureText | yyk99_extra/package/termosos/driver/main.c:62-68 | the same for the temperature, with a minus sign exactly if the sign bit is set and something is left before the point |
| CharDevice.TextsOfFrames | yyk99_extra/package/termosos/driver/dht11.c:13-25 | 26 0 19 8 53 is 19.80 degrees and 26.00 percent; the same below zero, and with a wrong sum |
| CharDevice.RunKeepsExclusive | yyk99_extra/package/termosos/driver/main.c:43-86 | over every run at most one open is outstanding, and the lock is held exactly while one is |
| CharDevice.HolderReadsItsText | yyk99_extra/package/termosos/driver/main.c:43-111 | until its release a holder keeps its text; its reads deliver the text in order, exactly as many bytes as were asked for until there are no more |
| CharDevice.OpenSucceedsIfFree | yyk99_extra/package/termosos/driver/main.c:43-86 | after any run at most one successful open is without its release, by the results of the calls, and the next open succeeds exactly if none is |
| CharDevice.NothingAfterTheEnd | yyk99_extra/package/termosos/driver/main.c:88-111 | as many good reads as the text is long deliver exactly the text, and until the release nothing more is ever delivered |
| CharDevice.Device.Open | yyk99_extra/package/termosos/driver/main.c:43-73 | -EBUSY exactly if it is locked, and then nothing changes; otherwise the text in terms of the five bytes sampled, which are those transmitted |
| CharDevice.Device.Read | yyk99_extra/package/termosos/driver/main.c:88-111 | the smaller of the count and the rest, that many characters from the position, which moves on by them; -EFAULT and nothing moved if the copy fails |
| CharDevice.Device.Release | yyk99_extra/package/termosos/driver/main.c:75-86 | the lock and the handle are gone, the text is kept |
| Server.RepliesOfFrame | yyk99_extra/package/termosos/udpserver/server.c:79-108 | for an accepted frame 't' and 'h' give exactly its parts of the text, for a rejected one nothing |
| Server.ReadingsRoundTrip | yyk99_extra/package/termosos/udpserver/server.c:79-108 | the numbers in the replies are the stored hundredths, the temperature unless its sign was lost |
| Server.LostSign | yyk99_extra/package/termosos/driver/main.c:62-68 | an accepted frame of -0.50 degrees that a client is told as 0.50 |
| Server.ReadDht11 | yyk99_extra/package/termosos/udpserver/server.c:43-59 | the whole text of the device, or failure exactly if it is busy or the copy fails; the device is released again |
| Server.ProcessRequest | yyk99_extra/package/termosos/udpserver/server.c:61-113 | white space is skipped up to the first other character; 'v', '?' and anything unknown get their texts; 't' and 'h' get the reading of the five bytes sampled, which are those transmitted, or -1 for a wrong sum or any failure; the device is left as it was |

## Left out

- AuxDriver.TransferNb: starts from an idle peripheral; with answers of earlier transfers unread in the RX FIFO its replies would be shifted by them. Whether the hardware really stalls on a full RX FIFO, and whether BUSY covers the TX FIFO, is assumed.
- I2c.Receive: the polling loops of the read transfers can run for ever against a device that never raises DONE, so their runs are described up to any number of polls, `None` meaning that the function is still polling.
- I2c.Write: `unsigned long` has 64 bits, as on the 64-bit kernel the project is built for.
- SystemTimer.Clock.StDelay: the 64-bit count must not wrap during the call, and an access must take time.
- Dht11.Sensor.GetData: the start signal is any stretch of time; the line is described from its release on.
- CharDevice.Device.Open: the reconfiguration of the pin and the millisecond of delay before sampling have no effect in the model.
- `bcm2835_spi_write`, `bcm2835_aux_spi_write` and `bcm2835_aux_spi_transfer`: one or two bytes over the same registers.
- Configuration writes (clock, data mode, chip select, control words of the auxiliary SPI): straight-line register writes.
- Memory barriers, mapping of registers, logging, module and device registration: effects outside the algorithms.
- PWM, SMI, pads, event detection and the pull-up sequence of boards before the Raspberry Pi 4, which initialisation switches off.
- `i2c_byte_wait_us`, which is always 0; the wait it is used for is any time the device takes.
- Sockets, daemon mode and the "OK " and "ERROR " framing of the server's main loop; the client; the demo programs.
